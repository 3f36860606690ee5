/** Tables whose rows carry a version that every write must know. */
module VersionedTable {
  import opened ClusterTypes

  /** kept holds the columns an update leaves alone. */
  datatype Row<K, B> = Row(version: int, kept: K, body: B)

  type Table<K, B> = map<Name, Row<K, B>>

  /** A write: version 0 inserts, any other version updates the row that has it. */
  datatype Put<K, B> = Put(name: Name, previous: int, kept: K, body: B)

  datatype DbError = AlreadyExists | IncorrectPreviousVersion

  datatype Result<T> = Ok(value: T) | Err(error: DbError)

  predicate Accepts<K, B>(t: Table<K, B>, p: Put<K, B>) {
    if p.previous == 0 then p.name !in t else p.name in t && t[p.name].version == p.previous
  }

  function NewRow<K, B>(t: Table<K, B>, p: Put<K, B>): Row<K, B>
    requires Accepts(t, p)
  {
    Row(p.previous + 1, if p.previous == 0 then p.kept else t[p.name].kept, p.body)
  }

  function ApplyPuts<K, B>(t: Table<K, B>, puts: seq<Put<K, B>>): Option<Table<K, B>> {
    if puts == [] then Some(t)
    else
      var last := puts[|puts| - 1];
      match ApplyPuts(t, puts[..|puts| - 1])
      case None => None
      case Some(u) => if Accepts(u, last) then Some(u[last.name := NewRow(u, last)]) else None
  }

  ghost predicate DistinctNames<K, B>(puts: seq<Put<K, B>>) {
    forall i, j | 0 <= i < j < |puts| :: puts[i].name != puts[j].name
  }

  ghost predicate Untouched<K, B>(puts: seq<Put<K, B>>, n: Name) {
    forall i | 0 <= i < |puts| :: puts[i].name != n
  }

  /** u is t with exactly the rows of the puts written. */
  ghost predicate WrittenBy<K, B>(t: Table<K, B>, puts: seq<Put<K, B>>, u: Table<K, B>) {
    && (forall i | 0 <= i < |puts| :: Accepts(t, puts[i]) && puts[i].name in u && u[puts[i].name] == NewRow(t, puts[i]))
    && (forall n | Untouched(puts, n) :: SameRow(t, u, n))
  }

  ghost predicate SameRow<K, B>(t: Table<K, B>, u: Table<K, B>, n: Name) {
    (n in u <==> n in t) && (n in t ==> u[n] == t[n])
  }

  /** No rows but those of the puts differ. */
  ghost predicate OnlyWritten<K, B>(t: Table<K, B>, puts: seq<Put<K, B>>, u: Table<K, B>) {
    forall n | Untouched(puts, n) :: SameRow(t, u, n)
  }

  /** Writes to different rows succeed together exactly when each would succeed alone. */
  lemma {:induction false} PutsSucceedIff<K, B>(t: Table<K, B>, puts: seq<Put<K, B>>)
    requires DistinctNames(puts)
    ensures ApplyPuts(t, puts).Some? <==> forall i | 0 <= i < |puts| :: Accepts(t, puts[i])
    ensures ApplyPuts(t, puts).Some? ==> WrittenBy(t, puts, ApplyPuts(t, puts).value)
  {
    if puts != [] {
      var n := |puts| - 1;
      var init, last := puts[..n], puts[n];
      assert forall i | 0 <= i < n :: init[i] == puts[i];
      assert Untouched(init, last.name);
      PutsSucceedIff(t, init);
      if ApplyPuts(t, init).Some? {
        var u := ApplyPuts(t, init).value;
        assert SameRow(t, u, last.name);
        if Accepts(u, last) {
          OneMoreWritten(t, init, last, u);
          assert init + [last] == puts;
        }
      }
    }
  }

  lemma OneMoreWritten<K, B>(t: Table<K, B>, init: seq<Put<K, B>>, last: Put<K, B>, u: Table<K, B>)
    requires WrittenBy(t, init, u) && forall i | 0 <= i < |init| :: init[i].name != last.name
    requires SameRow(t, u, last.name) && Accepts(u, last)
    ensures WrittenBy(t, init + [last], u[last.name := NewRow(u, last)])
  {
    var puts, v := init + [last], u[last.name := NewRow(u, last)];
    forall i | 0 <= i < |puts|
      ensures Accepts(t, puts[i]) && puts[i].name in v && v[puts[i].name] == NewRow(t, puts[i])
    {
      if i < |init| { assert puts[i] == init[i]; }
    }
    forall n | Untouched(puts, n) ensures SameRow(t, v, n) {
      assert puts[|init|] == last;
      assert forall i | 0 <= i < |init| :: init[i] == puts[i];
      assert Untouched(init, n);
    }
  }

  /** The elements a partial function is defined for, in order. */
  function Picked<T, U>(s: seq<T>, f: T -> Option<U>): seq<U> {
    if s == [] then []
    else Picked(s[..|s| - 1], f) + match f(s[|s| - 1]) { case None => [] case Some(u) => [u] }
  }

  ghost predicate From<T, U(!new)>(s: seq<T>, f: T -> Option<U>, u: U) {
    exists i :: 0 <= i < |s| && f(s[i]) == Some(u)
  }

  lemma {:induction false} PickedMembers<T, U(!new)>(s: seq<T>, f: T -> Option<U>, u: U)
    ensures u in Picked(s, f) <==> From(s, f, u)
  {
    if s != [] {
      var n := |s| - 1;
      PickedMembers(s[..n], f, u);
      if From(s[..n], f, u) {
        var i :| 0 <= i < n && f(s[..n][i]) == Some(u);
        assert f(s[i]) == Some(u);
      }
      if i :| 0 <= i < |s| && f(s[i]) == Some(u) {
        if i < n { assert f(s[..n][i]) == Some(u); }
      }
    }
  }

  /** Picking keeps names apart. */
  lemma {:induction false} PickedDistinct<T, U(!new)>(s: seq<T>, f: T -> Option<U>, nameT: T -> Name, nameU: U -> Name)
    requires forall i, j | 0 <= i < j < |s| :: nameT(s[i]) != nameT(s[j])
    requires forall i | 0 <= i < |s| && f(s[i]).Some? :: nameU(f(s[i]).value) == nameT(s[i])
    ensures forall i, j | 0 <= i < j < |Picked(s, f)| :: nameU(Picked(s, f)[i]) != nameU(Picked(s, f)[j])
  {
    if s != [] {
      var n := |s| - 1;
      PickedDistinct(s[..n], f, nameT, nameU);
      var init := Picked(s[..n], f);
      forall i | 0 <= i < |init| ensures nameU(init[i]) != nameT(s[n]) {
        PickedMembers(s[..n], f, init[i]);
        assert init[i] in init;
        var k :| 0 <= k < n && f(s[..n][k]) == Some(init[i]);
        assert s[..n][k] == s[k];
      }
    }
  }
}
