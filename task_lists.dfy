/** List operations over task sequences that both the service and the store
    use: `filter`, `findIndex` and replace-at-first-match. Every recursive
    definition peels the LAST element, so that a loop walking the list from
    the front keeps `acc == F(s[..i])`. */
module TaskLists {
  import opened Tasks

  /** `s.filter(t => k.Matches(t))`: the tasks that pass `k`, in list order. */
  function Select(s: seq<Task>, k: Criterion): (r: seq<Task>)
    ensures |r| <= |s|
  {
    if s == [] then []
    else
      var n := |s| - 1;
      Select(s[..n], k) + (if k.Matches(s[n]) then [s[n]] else [])
  }

  /** The positions of `s` that pass `k`, in increasing order. */
  ghost function KeptPositions(s: seq<Task>, k: Criterion): seq<nat> {
    if s == [] then []
    else
      var n := |s| - 1;
      KeptPositions(s[..n], k) + (if k.Matches(s[n]) then [n] else [])
  }

  /** `Select(s, k)` is exactly the subsequence of `s` formed by the entries
      that pass `k`, in their original relative order: entry `j` of the
      selection is entry `idx[j]` of `s`, `idx` increases, and it holds every
      position whose entry passes `k` and no other. */
  lemma {:induction false} SelectIsOrderedSubsequence(s: seq<Task>, k: Criterion)
    ensures var idx := KeptPositions(s, k);
      && |idx| == |Select(s, k)|
      && (forall j :: 0 <= j < |idx| ==> idx[j] < |s| && Select(s, k)[j] == s[idx[j]])
      && (forall a, b :: 0 <= a < b < |idx| ==> idx[a] < idx[b])
      && (forall i :: 0 <= i < |s| ==> (k.Matches(s[i]) <==> i in idx))
  {
    if s != [] {
      var n := |s| - 1;
      var p := s[..n];
      SelectIsOrderedSubsequence(p, k);
      var q := KeptPositions(p, k);
      var idx := KeptPositions(s, k);
      var sel := Select(s, k);
      var last: seq<nat> := if k.Matches(s[n]) then [n] else [];
      assert idx == q + last;
      assert sel == Select(p, k) + (if k.Matches(s[n]) then [s[n]] else []);
      forall j | 0 <= j < |idx|
        ensures idx[j] < |s| && sel[j] == s[idx[j]]
      {
        if j < |q| {
          assert idx[j] == q[j] && sel[j] == Select(p, k)[j] && p[q[j]] == s[q[j]];
        }
      }
      forall a, b | 0 <= a < b < |idx|
        ensures idx[a] < idx[b]
      {
        if b == |q| {
          assert idx[a] == q[a] < n;
        }
      }
      forall i | 0 <= i < |s|
        ensures k.Matches(s[i]) <==> i in idx
      {
        if i < n {
          assert p[i] == s[i] && i !in last;
        } else {
          assert forall j :: 0 <= j < |q| ==> q[j] < n;
        }
      }
    }
  }

  /** Selecting from a list with one more entry at the end. */
  lemma SelectAppend(p: seq<Task>, x: Task, k: Criterion)
    ensures Select(p + [x], k) == Select(p, k) + (if k.Matches(x) then [x] else [])
  {
  }

  /** Membership in a selection, both directions. */
  lemma {:induction false} SelectMembers(s: seq<Task>, k: Criterion)
    ensures forall t :: t in Select(s, k) <==> t in s && k.Matches(t)
  {
    if s != [] {
      var n := |s| - 1;
      SelectMembers(s[..n], k);
      assert s == s[..n] + [s[n]];
    }
  }

  /** A criterion that every entry passes selects the whole list. */
  lemma {:induction false} SelectEverything(s: seq<Task>, k: Criterion)
    requires forall i :: 0 <= i < |s| ==> k.Matches(s[i])
    ensures Select(s, k) == s
  {
    if s != [] {
      var n := |s| - 1;
      SelectEverything(s[..n], k);
      assert s == s[..n] + [s[n]];
    }
  }

  /** The open and the done entries split the list: every entry is in exactly one. */
  lemma {:induction false} StatusSplits(s: seq<Task>)
    ensures |Select(s, StatusIs(false))| + |Select(s, StatusIs(true))| == |s|
  {
    if s != [] {
      StatusSplits(s[..|s| - 1]);
    }
  }

  /** `s.findIndex(t => t.id === id)`: the first position holding `id`, or -1. */
  function FirstIndex(s: seq<Task>, id: int): (i: int)
    ensures -1 <= i < |s|
    ensures i == -1 <==> forall j :: 0 <= j < |s| ==> s[j].id != id
    ensures 0 <= i ==> s[i].id == id && forall j :: 0 <= j < i ==> s[j].id != id
  {
    if s == [] then -1
    else
      var n := |s| - 1;
      var i := FirstIndex(s[..n], id);
      if i != -1 then i else if s[n].id == id then n else -1
  }

  /** The linear search behind every `findIndex` / `find` by id. */
  method FindIndex(s: seq<Task>, id: int) returns (index: int)
    ensures index == FirstIndex(s, id)
  {
    index := 0;
    while index < |s|
      invariant 0 <= index <= |s|
      invariant forall j :: 0 <= j < index ==> s[j].id != id
    {
      if s[index].id == id {
        return;
      }
      index := index + 1;
    }
    index := -1;
  }

  /** What `s.filter(t => t.id !== id)` keeps: no entry with `id` is left,
      and the list does not grow. */
  function Without(s: seq<Task>, id: int): (r: seq<Task>)
    ensures |r| <= |s|
    ensures forall t :: t in r ==> t.id != id
  {
    SelectMembers(s, IdIsNot(id));
    Select(s, IdIsNot(id))
  }

  /** The filtering loop behind the service's and the store's delete. */
  method FilterOut(s: seq<Task>, id: int) returns (r: seq<Task>)
    ensures r == Without(s, id)
  {
    r := [];
    var i := 0;
    while i < |s|
      invariant 0 <= i <= |s|
      invariant r == Without(s[..i], id)
    {
      assert s[..i + 1][..i] == s[..i];
      assert Without(s[..i + 1], id)
          == Without(s[..i], id) + (if s[i].id != id then [s[i]] else []);
      if s[i].id != id {
        r := r + [s[i]];
      }
      i := i + 1;
    }
    assert s[..|s|] == s;
  }

  /** After a delete no entry carries `id`, and every entry with another id
      is still there (their order is `SelectIsOrderedSubsequence(s, IdIsNot(id))`). */
  lemma WithoutMembers(s: seq<Task>, id: int)
    ensures forall t :: t in Without(s, id) <==> t in s && t.id != id
  {
    SelectMembers(s, IdIsNot(id));
  }

  /** Deleting an id that no entry carries changes nothing. */
  lemma WithoutAbsent(s: seq<Task>, id: int)
    requires FirstIndex(s, id) == -1
    ensures Without(s, id) == s
  {
    SelectEverything(s, IdIsNot(id));
  }

  /** No two entries share an id. */
  predicate UniqueIds(s: seq<Task>) {
    forall i, j :: 0 <= i < j < |s| ==> s[i].id != s[j].id
  }

  /** With unique ids, deleting a present id removes exactly one entry. */
  lemma {:induction false} WithoutPresentLength(s: seq<Task>, id: int)
    requires UniqueIds(s)
    requires FirstIndex(s, id) != -1
    ensures |Without(s, id)| == |s| - 1
  {
    var n := |s| - 1;
    var p := s[..n];
    assert UniqueIds(p);
    assert Without(s, id) == Without(p, id) + (if s[n].id != id then [s[n]] else []);
    if FirstIndex(p, id) != -1 {
      WithoutPresentLength(p, id);
      assert s[FirstIndex(p, id)].id == id;
    } else {
      WithoutAbsent(p, id);
    }
  }

  /** Selecting keeps ids unique. */
  lemma SelectKeepsUnique(s: seq<Task>, k: Criterion)
    requires UniqueIds(s)
    ensures UniqueIds(Select(s, k))
  {
    var idx := KeptPositions(s, k);
    var r := Select(s, k);
    SelectIsOrderedSubsequence(s, k);
    forall i, j | 0 <= i < j < |r|
      ensures r[i].id != r[j].id
    {
      assert idx[i] < idx[j];
    }
  }

  /** The `UPDATE_TASK` step: `t` replaces the first entry with `t.id`;
      with no such entry the list is kept. */
  function Replaced(s: seq<Task>, t: Task): (r: seq<Task>)
    ensures |r| == |s|
    ensures FirstIndex(s, t.id) == -1 ==> r == s
    ensures FirstIndex(s, t.id) != -1 ==> r[FirstIndex(s, t.id)] == t
    ensures forall j :: 0 <= j < |s| && j != FirstIndex(s, t.id) ==> r[j] == s[j]
    ensures forall j :: 0 <= j < |s| ==> r[j].id == s[j].id
  {
    var i := FirstIndex(s, t.id);
    if i == -1 then s else s[i := t]
  }

  /** Replacing keeps ids unique, since the new entry carries the id it replaces. */
  lemma ReplacedKeepsUnique(s: seq<Task>, t: Task)
    requires UniqueIds(s)
    ensures UniqueIds(Replaced(s, t))
  {
  }

  /** Appending keeps ids unique exactly when the new id is not yet used. */
  lemma AppendKeepsUnique(s: seq<Task>, t: Task)
    requires UniqueIds(s)
    ensures UniqueIds(s + [t]) <==> FirstIndex(s, t.id) == -1
  {
    if FirstIndex(s, t.id) != -1 {
      assert (s + [t])[FirstIndex(s, t.id)].id == (s + [t])[|s|].id;
    }
  }
}
