/** What the store does with `orderBy`, `offset` and `limit` when it reads a
    page of `users`: a stable sort on one column, ascending or descending,
    then a window of the sorted rows. */
module Ordering {
  import opened Results
  import opened Schema
  import Strings

  /** One ORDER BY term: a column property name and a direction. */
  datatype OrderBy = OrderBy(column: string, descending: bool)

  /** Sort keys of different kinds never meet in one column; ranking the
      kinds keeps the key order total anyway. */
  function KindRank(k: Option<Value>): nat {
    match k
    case None => 0
    case Some(Instant(_)) => 1
    case Some(Text(_)) => 2
  }

  /** Ascending order on sort keys: instants by time, text by code point. */
  predicate KeyLe(a: Option<Value>, b: Option<Value>) {
    if KindRank(a) != KindRank(b) then KindRank(a) < KindRank(b)
    else if a.Some? && a.value.Instant? && b.Some? && b.value.Instant? then a.value.time <= b.value.time
    else if a.Some? && a.value.Text? && b.Some? && b.value.Text? then Strings.TextLe(a.value.text, b.value.text)
    else true
  }

  lemma KeyLeTotal(a: Option<Value>, b: Option<Value>)
    ensures KeyLe(a, b) || KeyLe(b, a)
  {
    if a.Some? && a.value.Text? && b.Some? && b.value.Text? {
      Strings.TextLeTotal(a.value.text, b.value.text);
    }
  }

  lemma KeyLeTransitive(a: Option<Value>, b: Option<Value>, c: Option<Value>)
    requires KeyLe(a, b) && KeyLe(b, c)
    ensures KeyLe(a, c)
  {
    if KindRank(a) == KindRank(b) == KindRank(c) && a.Some? && a.value.Text? {
      Strings.TextLeTransitive(a.value.text, b.value.text, c.value.text);
    }
  }

  lemma KeyLeAntisymmetric(a: Option<Value>, b: Option<Value>)
    requires KeyLe(a, b) && KeyLe(b, a)
    ensures a == b
  {
    if a.Some? && a.value.Text? && b.Some? && b.value.Text? {
      Strings.TextLeAntisymmetric(a.value.text, b.value.text);
    }
  }

  /** Row `a` may come before row `b` under `ob`. */
  predicate Precedes(a: User, b: User, ob: OrderBy) {
    var ka := ColumnValue(a, ob.column);
    var kb := ColumnValue(b, ob.column);
    if ob.descending then KeyLe(kb, ka) else KeyLe(ka, kb)
  }

  lemma PrecedesTotal(a: User, b: User, ob: OrderBy)
    ensures Precedes(a, b, ob) || Precedes(b, a, ob)
  {
    KeyLeTotal(ColumnValue(a, ob.column), ColumnValue(b, ob.column));
  }

  lemma PrecedesTransitive(a: User, b: User, c: User, ob: OrderBy)
    requires Precedes(a, b, ob) && Precedes(b, c, ob)
    ensures Precedes(a, c, ob)
  {
    var ka, kb, kc := ColumnValue(a, ob.column), ColumnValue(b, ob.column), ColumnValue(c, ob.column);
    if ob.descending {
      KeyLeTransitive(kc, kb, ka);
    } else {
      KeyLeTransitive(ka, kb, kc);
    }
  }

  /** Every row comes no later than the rows after it. */
  predicate SortedBy(s: seq<User>, ob: OrderBy) {
    forall i, j :: 0 <= i < j < |s| ==> Precedes(s[i], s[j], ob)
  }

  /** Places `x` before the first row it precedes, so among equal keys the
      rows keep their order. */
  function InsertSorted(x: User, s: seq<User>, ob: OrderBy): (r: seq<User>)
    ensures multiset(r) == multiset(s) + multiset{x}
    ensures SortedBy(s, ob) ==> SortedBy(r, ob)
    decreases |s|
  {
    if s == [] || Precedes(x, s[0], ob) then
      InsertFrontSorted(x, s, ob);
      [x] + s
    else
      var t := InsertSorted(x, s[1..], ob);
      assert s == [s[0]] + s[1..];
      InsertBehindSorted(x, s, t, ob);
      [s[0]] + t
  }

  lemma InsertFrontSorted(x: User, s: seq<User>, ob: OrderBy)
    requires s == [] || Precedes(x, s[0], ob)
    ensures SortedBy(s, ob) ==> SortedBy([x] + s, ob)
  {
    if SortedBy(s, ob) && s != [] {
      var r := [x] + s;
      forall i, j | 0 <= i < j < |r| ensures Precedes(r[i], r[j], ob) {
        if i == 0 && j > 1 {
          PrecedesTransitive(x, s[0], s[j - 1], ob);
        }
      }
    }
  }

  lemma InsertBehindSorted(x: User, s: seq<User>, t: seq<User>, ob: OrderBy)
    requires s != [] && !Precedes(x, s[0], ob)
    requires multiset(t) == multiset(s[1..]) + multiset{x}
    requires SortedBy(s, ob) ==> SortedBy(t, ob)
    ensures SortedBy(s, ob) ==> SortedBy([s[0]] + t, ob)
  {
    if SortedBy(s, ob) {
      var r := [s[0]] + t;
      forall i, j | 0 <= i < j < |r| ensures Precedes(r[i], r[j], ob) {
        if i == 0 {
          HeadPrecedesInserted(x, s, t, ob, t[j - 1]);
        }
      }
    }
  }

  /** The head of a sorted sequence precedes every row of its tail with `x`
      inserted, when `x` does not go before the head. */
  lemma HeadPrecedesInserted(x: User, s: seq<User>, t: seq<User>, ob: OrderBy, y: User)
    requires s != [] && !Precedes(x, s[0], ob) && SortedBy(s, ob)
    requires multiset(t) == multiset(s[1..]) + multiset{x}
    requires y in t
    ensures Precedes(s[0], y, ob)
  {
    assert y in multiset(t);
    if y == x {
      PrecedesTotal(x, s[0], ob);
    } else {
      assert y in multiset(s[1..]);
      var k :| 0 <= k < |s[1..]| && s[1..][k] == y;
      assert s[k + 1] == y;
    }
  }

  /** The rows in `ob` order: a permutation of the input that is sorted. */
  function SortRows(rows: seq<User>, ob: OrderBy): (r: seq<User>)
    ensures multiset(r) == multiset(rows)
    ensures SortedBy(r, ob)
    ensures |r| == |rows|
    decreases |rows|
  {
    if rows == [] then []
    else
      assert rows == [rows[0]] + rows[1..];
      InsertSorted(rows[0], SortRows(rows[1..], ob), ob)
  }

  /** LIMIT `limit` OFFSET `offset`: the rows from position `offset` on, at
      most `limit` of them. */
  function Window<T>(s: seq<T>, offset: nat, limit: nat): (w: seq<T>)
    ensures |w| == if offset >= |s| then 0 else if limit < |s| - offset then limit else |s| - offset
    ensures forall k :: 0 <= k < |w| ==> w[k] == s[offset + k]
  {
    if offset >= |s| then []
    else if limit < |s| - offset then s[offset..offset + limit]
    else s[offset..]
  }

  /** No value occurs twice. */
  predicate NoDuplicates<T(==)>(s: seq<T>) {
    forall i, j :: 0 <= i < j < |s| ==> s[i] != s[j]
  }

  lemma {:induction false} NoDuplicatesCountsOnce<T>(s: seq<T>, x: T)
    requires NoDuplicates(s)
    ensures multiset(s)[x] <= 1
    decreases |s|
  {
    if s != [] {
      assert s == [s[0]] + s[1..];
      NoDuplicatesCountsOnce(s[1..], x);
      if x == s[0] {
        assert x !in s[1..];
      }
    }
  }

  /** A permutation of a duplicate-free sequence is duplicate-free. */
  lemma PermutationKeepsNoDuplicates<T>(a: seq<T>, b: seq<T>)
    requires NoDuplicates(a) && multiset(a) == multiset(b)
    ensures NoDuplicates(b)
  {
    forall i, j | 0 <= i < j < |b| ensures b[i] != b[j] {
      if b[i] == b[j] {
        var x := b[i];
        assert b == b[..j] + b[j..];
        assert x in b[..j] && x in b[j..];
        assert multiset(b)[x] == multiset(b[..j])[x] + multiset(b[j..])[x];
        NoDuplicatesCountsOnce(a, x);
        assert false;
      }
    }
  }

  /** No element of `w1` occurs in `w2`. */
  predicate Disjoint<T(==)>(w1: seq<T>, w2: seq<T>) {
    forall a, b :: 0 <= a < |w1| && 0 <= b < |w2| ==> w1[a] != w2[b]
  }

  /** Windows over a duplicate-free sequence that do not overlap in
      position share no element. */
  lemma WindowsDisjoint<T>(s: seq<T>, o1: nat, o2: nat, limit: nat)
    requires NoDuplicates(s)
    requires o1 + limit <= o2
    ensures Disjoint(Window(s, o1, limit), Window(s, o2, limit))
  {
    var w1, w2 := Window(s, o1, limit), Window(s, o2, limit);
    forall a, b | 0 <= a < |w1| && 0 <= b < |w2| ensures w1[a] != w2[b] {
      assert w1[a] == s[o1 + a] && w2[b] == s[o2 + b];
    }
  }

  /** The position of the first row of page `page` (counted from 1): the
      pages before it laid end to end, which is the offset `(page - 1) *
      perPage` that LIMIT/OFFSET paging computes. */
  function PageStart(page: nat, perPage: nat): (o: nat)
    requires page >= 1
    ensures o == (page - 1) * perPage
    decreases page
  {
    if page == 1 then 0 else PageStart(page - 1, perPage) + perPage
  }

  lemma {:induction false} PageStartsApart(p1: nat, p2: nat, perPage: nat)
    requires 1 <= p1 < p2
    ensures PageStart(p1, perPage) + perPage <= PageStart(p2, perPage)
    decreases p2
  {
    assert (p2 - 1) * perPage == (p2 - 2) * perPage + perPage;
    if p2 > p1 + 1 {
      PageStartsApart(p1, p2 - 1, perPage);
    }
  }

  /** Two rows that may each come before the other have the same key. */
  lemma PrecedesBothWays(a: User, b: User, ob: OrderBy)
    requires Precedes(a, b, ob) && Precedes(b, a, ob)
    ensures ColumnValue(a, ob.column) == ColumnValue(b, ob.column)
  {
    KeyLeAntisymmetric(ColumnValue(a, ob.column), ColumnValue(b, ob.column));
  }

  /** No two different rows share a value in `column`. */
  predicate KeysDistinct(rows: seq<User>, column: string) {
    forall a, b :: a in rows && b in rows && a != b ==> ColumnValue(a, column) != ColumnValue(b, column)
  }

  lemma PermutationKeepsKeysDistinct(a: seq<User>, b: seq<User>, column: string)
    requires KeysDistinct(a, column) && multiset(a) == multiset(b)
    ensures KeysDistinct(b, column)
  {
    forall x ensures x in b ==> x in a {
      if x in b {
        assert x in multiset(b);
      }
    }
  }

  /** Two sorted orders of the same rows with distinct keys start with the
      same row. */
  lemma SortedHeadsEqual(s1: seq<User>, s2: seq<User>, ob: OrderBy)
    requires s1 != [] && multiset(s1) == multiset(s2)
    requires SortedBy(s1, ob) && SortedBy(s2, ob)
    requires KeysDistinct(s1, ob.column)
    ensures s2 != [] && s1[0] == s2[0]
  {
    assert s1[0] in multiset(s2);
    var a, b := s1[0], s2[0];
    assert b in multiset(s1);
    if a != b {
      var k :| 0 <= k < |s2| && s2[k] == a;
      var m :| 0 <= m < |s1| && s1[m] == b;
      PrecedesBothWays(a, b, ob);
      assert false;
    }
  }

  lemma SortedTail(s: seq<User>, ob: OrderBy)
    requires s != [] && SortedBy(s, ob)
    ensures SortedBy(s[1..], ob)
  {
    forall i, j | 0 <= i < j < |s[1..]| ensures Precedes(s[1..][i], s[1..][j], ob) {
      assert s[1..][i] == s[i + 1] && s[1..][j] == s[j + 1];
    }
  }

  /** With distinct keys there is only one sorted order: any two sorted
      permutations of the same rows are equal, so ties cannot make two
      queries disagree. */
  lemma {:induction false} SortedUnique(s1: seq<User>, s2: seq<User>, ob: OrderBy)
    requires multiset(s1) == multiset(s2)
    requires SortedBy(s1, ob) && SortedBy(s2, ob)
    requires KeysDistinct(s1, ob.column)
    ensures s1 == s2
    decreases |s1|
  {
    if s1 == [] {
      assert |multiset(s2)| == 0;
    } else {
      SortedHeadsEqual(s1, s2, ob);
      MultisetOfTails(s1, s2);
      SortedTail(s1, ob);
      SortedTail(s2, ob);
      KeysDistinctTail(s1, ob.column);
      SortedUnique(s1[1..], s2[1..], ob);
      assert s1 == [s1[0]] + s1[1..] && s2 == [s2[0]] + s2[1..];
    }
  }

  lemma MultisetOfTails<T>(s1: seq<T>, s2: seq<T>)
    requires s1 != [] && s2 != [] && s1[0] == s2[0] && multiset(s1) == multiset(s2)
    ensures multiset(s1[1..]) == multiset(s2[1..])
  {
    assert s1 == [s1[0]] + s1[1..] && s2 == [s2[0]] + s2[1..];
    var m1, m2 := multiset(s1[1..]), multiset(s2[1..]);
    assert multiset(s1) == multiset{s1[0]} + m1;
    assert multiset(s2) == multiset{s1[0]} + m2;
    forall x ensures m1[x] == m2[x] {
      assert multiset(s1)[x] == multiset{s1[0]}[x] + m1[x];
      assert multiset(s2)[x] == multiset{s1[0]}[x] + m2[x];
    }
  }

  lemma KeysDistinctTail(s: seq<User>, column: string)
    requires s != [] && KeysDistinct(s, column)
    ensures KeysDistinct(s[1..], column)
  {
    forall x | x in s[1..] ensures x in s { }
  }

  /** Two different pages, each cut by its own query from a sorted order of
      the same rows, share no row when the sort keys are distinct: page `p`
      holds positions (p-1)*n up to p*n of the one possible order. */
  lemma PagesDisjoint(rows: seq<User>, s1: seq<User>, s2: seq<User>, ob: OrderBy, perPage: nat, p1: nat, p2: nat)
    requires NoDuplicates(rows) && KeysDistinct(rows, ob.column)
    requires multiset(s1) == multiset(rows) && SortedBy(s1, ob)
    requires multiset(s2) == multiset(rows) && SortedBy(s2, ob)
    requires 1 <= p1 < p2
    ensures Disjoint(Window(s1, PageStart(p1, perPage), perPage),
                     Window(s2, PageStart(p2, perPage), perPage))
  {
    PermutationKeepsKeysDistinct(rows, s1, ob.column);
    SortedUnique(s1, s2, ob);
    PermutationKeepsNoDuplicates(rows, s1);
    PageStartsApart(p1, p2, perPage);
    WindowsDisjoint(s1, PageStart(p1, perPage), PageStart(p2, perPage), perPage);
  }
}
