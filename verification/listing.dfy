/**
  The three file listings: every file (`File.query.order_by(uploaded_at.desc())`),
  one owner's files (the same query filtered by `uploaded_by`), and the
  edited files among those. All are newest first; rows with equal
  timestamps may come in any order, as in SQL.
 */
module Listing {
  import opened Model

  /** Which rows a listing is about. */
  datatype Scope = AllFiles | OwnedBy(owner: UserId) | EditedBy(editor: UserId)

  predicate InScope(scope: Scope, f: FileRec) {
    match scope
    case AllFiles => true
    case OwnedBy(u) => f.owner == u
    case EditedBy(u) => f.owner == u && f.edited
  }

  ghost predicate AllIn(files: map<FileId, FileRec>, s: seq<FileId>) {
    forall i :: 0 <= i < |s| ==> s[i] in files
  }

  ghost predicate Distinct(s: seq<FileId>) {
    forall i, j :: 0 <= i < j < |s| ==> s[i] != s[j]
  }

  /** Ordered by upload time, newest first. */
  ghost predicate NewestFirst(files: map<FileId, FileRec>, s: seq<FileId>)
    requires AllIn(files, s)
  {
    forall i, j :: 0 <= i < j < |s| ==> files[s[i]].uploadedAt >= files[s[j]].uploadedAt
  }

  /** `r` is `s` with some of its elements dropped: the rest keep their
      relative order. */
  ghost predicate Subsequence(r: seq<FileId>, s: seq<FileId>)
    decreases |s|
  {
    if r == [] then true
    else if s == [] then false
    else if r[0] == s[0] then Subsequence(r[1..], s[1..])
    else Subsequence(r, s[1..])
  }

  /** Every element of a subsequence sits somewhere in `s`, and any two of
      them sit in `s` in the order they have in the subsequence. */
  lemma {:induction false} SubsequenceKeepsOrder(r: seq<FileId>, s: seq<FileId>)
    requires Subsequence(r, s)
    ensures forall i :: 0 <= i < |r| ==> exists a :: 0 <= a < |s| && s[a] == r[i]
    ensures forall i, j :: 0 <= i < j < |r| ==>
      exists a, b :: 0 <= a < b < |s| && s[a] == r[i] && s[b] == r[j]
    decreases |s|
  {
    if r == [] {
    } else if r[0] == s[0] {
      SubsequenceKeepsOrder(r[1..], s[1..]);
      forall i | 0 <= i < |r| ensures exists a :: 0 <= a < |s| && s[a] == r[i] {
        if i == 0 {
          assert s[0] == r[0];
        } else {
          var a :| 0 <= a < |s[1..]| && s[1..][a] == r[1..][i - 1];
          assert s[a + 1] == r[i];
        }
      }
      forall i, j | 0 <= i < j < |r| ensures exists a, b :: 0 <= a < b < |s| && s[a] == r[i] && s[b] == r[j] {
        if i == 0 {
          var b :| 0 <= b < |s[1..]| && s[1..][b] == r[1..][j - 1];
          assert s[0] == r[0] && s[b + 1] == r[j];
        } else {
          var a, b :| 0 <= a < b < |s[1..]| && s[1..][a] == r[1..][i - 1] && s[1..][b] == r[1..][j - 1];
          assert s[a + 1] == r[i] && s[b + 1] == r[j];
        }
      }
    } else {
      SubsequenceKeepsOrder(r, s[1..]);
      forall i | 0 <= i < |r| ensures exists a :: 0 <= a < |s| && s[a] == r[i] {
        var a :| 0 <= a < |s[1..]| && s[1..][a] == r[i];
        assert s[a + 1] == r[i];
      }
      forall i, j | 0 <= i < j < |r| ensures exists a, b :: 0 <= a < b < |s| && s[a] == r[i] && s[b] == r[j] {
        var a, b :| 0 <= a < b < |s[1..]| && s[1..][a] == r[i] && s[1..][b] == r[j];
        assert s[a + 1] == r[i] && s[b + 1] == r[j];
      }
    }
  }

  /** `s` is a correct answer to the query for `scope`: every row in scope
      exactly once, newest first. */
  ghost predicate IsListing(files: map<FileId, FileRec>, scope: Scope, s: seq<FileId>) {
    && AllIn(files, s)
    && (forall i :: 0 <= i < |s| ==> InScope(scope, files[s[i]]))
    && (forall id :: id in files && InScope(scope, files[id]) ==> id in s)
    && Distinct(s)
    && NewestFirst(files, s)
  }

  /** The ids in `[lo, hi)` of rows in scope, in increasing order. */
  function Collect(files: map<FileId, FileRec>, scope: Scope, lo: nat, hi: nat): (s: seq<FileId>)
    ensures AllIn(files, s)
    ensures forall i :: 0 <= i < |s| ==> lo <= s[i] < hi && InScope(scope, files[s[i]])
    ensures forall id :: lo <= id < hi && id in files && InScope(scope, files[id]) ==> id in s
    ensures forall i, j :: 0 <= i < j < |s| ==> s[i] < s[j]
    decreases hi - lo
  {
    if lo >= hi then []
    else if lo in files && InScope(scope, files[lo]) then [lo] + Collect(files, scope, lo + 1, hi)
    else Collect(files, scope, lo + 1, hi)
  }

  /** Inserts `id` into a newest-first sequence, before the first row that
      is not newer than it. */
  function Insert(files: map<FileId, FileRec>, id: FileId, s: seq<FileId>): (r: seq<FileId>)
    requires id in files && AllIn(files, s) && NewestFirst(files, s)
    ensures multiset(r) == multiset(s) + multiset{id}
    ensures AllIn(files, r) && NewestFirst(files, r)
    ensures id !in s && Distinct(s) ==> Distinct(r)
  {
    if s == [] || files[s[0]].uploadedAt <= files[id].uploadedAt then
      [id] + s
    else
      var rest := Insert(files, id, s[1..]);
      InsertStep(files, id, s, rest);
      [s[0]] + rest
  }

  /** Putting `x` in front of a newest-first sequence of rows none newer
      than it keeps the sequence newest first. */
  lemma ConsNewestFirst(files: map<FileId, FileRec>, x: FileId, rest: seq<FileId>)
    requires x in files && AllIn(files, rest) && NewestFirst(files, rest)
    requires forall k :: 0 <= k < |rest| ==> files[x].uploadedAt >= files[rest[k]].uploadedAt
    ensures AllIn(files, [x] + rest) && NewestFirst(files, [x] + rest)
  {
    var r := [x] + rest;
    forall i, j | 0 <= i < j < |r| ensures files[r[i]].uploadedAt >= files[r[j]].uploadedAt {
      assert r[j] == rest[j - 1];
      if i > 0 {
        assert r[i] == rest[i - 1];
      }
    }
  }

  /** Putting an id in front of a sequence that does not hold it keeps the
      ids distinct. */
  lemma ConsDistinct(x: FileId, rest: seq<FileId>)
    requires Distinct(rest) && x !in rest
    ensures Distinct([x] + rest)
  {
    var r := [x] + rest;
    forall i, j | 0 <= i < j < |r| ensures r[i] != r[j] {
      assert r[j] == rest[j - 1];
      if i > 0 {
        assert r[i] == rest[i - 1];
      }
    }
  }

  /** The step case of `Insert`: the head of `s`, newer than `id`, may go
      in front of the insertion of `id` into the tail. */
  lemma InsertStep(files: map<FileId, FileRec>, id: FileId, s: seq<FileId>, rest: seq<FileId>)
    requires id in files && AllIn(files, s) && NewestFirst(files, s) && s != []
    requires files[s[0]].uploadedAt > files[id].uploadedAt
    requires multiset(rest) == multiset(s[1..]) + multiset{id}
    requires AllIn(files, rest) && NewestFirst(files, rest)
    requires id !in s[1..] && Distinct(s[1..]) ==> Distinct(rest)
    ensures multiset([s[0]] + rest) == multiset(s) + multiset{id}
    ensures AllIn(files, [s[0]] + rest) && NewestFirst(files, [s[0]] + rest)
    ensures id !in s && Distinct(s) ==> Distinct([s[0]] + rest)
  {
    assert s == [s[0]] + s[1..];
    assert multiset(s) == multiset{s[0]} + multiset(s[1..]);
    forall k | 0 <= k < |rest| ensures files[s[0]].uploadedAt >= files[rest[k]].uploadedAt {
      assert rest[k] in multiset(rest);
      if rest[k] != id {
        assert rest[k] in multiset(s[1..]);
        var j :| 0 <= j < |s[1..]| && s[1..][j] == rest[k];
        assert s[j + 1] == rest[k];
      }
    }
    ConsNewestFirst(files, s[0], rest);
    if id !in s && Distinct(s) {
      assert s[0] !in multiset(s[1..]);
      assert s[0] !in multiset(rest);
      ConsDistinct(s[0], rest);
    }
  }

  /** Insertion sort on upload time, newest first. */
  function SortNewestFirst(files: map<FileId, FileRec>, s: seq<FileId>): (r: seq<FileId>)
    requires AllIn(files, s)
    ensures multiset(r) == multiset(s)
    ensures AllIn(files, r) && NewestFirst(files, r)
    ensures Distinct(s) ==> Distinct(r)
  {
    if s == [] then []
    else
      var sorted := SortNewestFirst(files, s[1..]);
      SortStep(s, sorted);
      Insert(files, s[0], sorted)
  }

  lemma SortStep(s: seq<FileId>, sorted: seq<FileId>)
    requires s != [] && multiset(sorted) == multiset(s[1..])
    requires Distinct(s[1..]) ==> Distinct(sorted)
    ensures multiset(s) == multiset(sorted) + multiset{s[0]}
    ensures Distinct(s) ==> s[0] !in sorted && Distinct(sorted)
  {
    assert s == [s[0]] + s[1..];
    if Distinct(s) {
      assert s[0] !in multiset(s[1..]);
    }
  }

  /** The query for `scope`: the rows in scope, newest first. */
  function Query(st: State, scope: Scope): (s: seq<FileId>)
    ensures AllIn(st.files, s)
  {
    SortNewestFirst(st.files, Collect(st.files, scope, 0, st.nextFileId))
  }

  /** On a valid database every query returns a correct listing. */
  lemma {:induction false} QueryIsListing(st: State, scope: Scope)
    requires Valid(st)
    ensures IsListing(st.files, scope, Query(st, scope))
  {
    var c := Collect(st.files, scope, 0, st.nextFileId);
    var r := SortNewestFirst(st.files, c);
    assert r == Query(st, scope);
    SameElements(c, r);
    forall i | 0 <= i < |r| ensures InScope(scope, st.files[r[i]]) {
      assert r[i] in c;
    }
    forall id | id in st.files && InScope(scope, st.files[id]) ensures id in r {
      assert id < st.nextFileId;
    }
    assert Distinct(c);
  }

  /** Two sequences with the same multiset hold the same elements. */
  lemma SameElements(a: seq<FileId>, b: seq<FileId>)
    requires multiset(a) == multiset(b)
    ensures forall x :: x in a <==> x in b
  {
    forall x ensures x in a <==> x in b {
      assert x in a <==> x in multiset(a);
      assert x in b <==> x in multiset(b);
    }
  }

  /** The rows of `s` whose `edited` flag is set, in the order of `s`. */
  function EditedOnly(files: map<FileId, FileRec>, s: seq<FileId>): (r: seq<FileId>)
    requires AllIn(files, s)
    ensures AllIn(files, r)
    ensures forall id :: id in r <==> id in s && files[id].edited
    ensures Subsequence(r, s)
    ensures NewestFirst(files, s) ==> NewestFirst(files, r)
    ensures Distinct(s) ==> Distinct(r)
  {
    if s == [] then []
    else
      var rest := EditedOnly(files, s[1..]);
      assert s == [s[0]] + s[1..];
      if files[s[0]].edited then
        PrependKeepsOrder(files, s, rest);
        SubsequenceStep(s, rest, true);
        [s[0]] + rest
      else
        SubsequenceStep(s, rest, false);
        rest
  }

  /** Keeping or dropping the head of `s` in front of a subsequence of its
      tail gives a subsequence of `s`. */
  lemma SubsequenceStep(s: seq<FileId>, rest: seq<FileId>, keep: bool)
    requires s != [] && Subsequence(rest, s[1..])
    requires !keep ==> rest == [] || rest[0] != s[0]
    ensures Subsequence(if keep then [s[0]] + rest else rest, s)
  {
    if keep {
      assert ([s[0]] + rest)[1..] == rest;
    }
  }

  /** The head of `s` may go in front of any selection `rest` from its
      tail without breaking the order or repeating an id. */
  lemma PrependKeepsOrder(files: map<FileId, FileRec>, s: seq<FileId>, rest: seq<FileId>)
    requires AllIn(files, s) && s != [] && AllIn(files, rest)
    requires forall id :: id in rest ==> id in s[1..]
    requires NewestFirst(files, s) ==> NewestFirst(files, rest)
    requires Distinct(s[1..]) ==> Distinct(rest)
    ensures NewestFirst(files, s) ==> NewestFirst(files, [s[0]] + rest)
    ensures Distinct(s) ==> Distinct([s[0]] + rest)
  {
    if NewestFirst(files, s) {
      forall k | 0 <= k < |rest| ensures files[s[0]].uploadedAt >= files[rest[k]].uploadedAt {
        assert rest[k] in s[1..];
        var j :| 0 <= j < |s[1..]| && s[1..][j] == rest[k];
        assert s[j + 1] == rest[k];
      }
      ConsNewestFirst(files, s[0], rest);
    }
    if Distinct(s) {
      assert Distinct(s[1..]);
      forall k | 0 <= k < |rest| ensures rest[k] != s[0] {
        assert rest[k] in s[1..];
        var j :| 0 <= j < |s[1..]| && s[1..][j] == rest[k];
        assert s[j + 1] == rest[k];
      }
      ConsDistinct(s[0], rest);
    }
  }

  /** The edited-only view is a correct listing of the owner's edited
      files: filtering the owner's listing loses no edited row and keeps
      the newest-first order. */
  lemma {:induction false} EditedOnlyIsListing(files: map<FileId, FileRec>, owner: UserId, s: seq<FileId>)
    requires IsListing(files, OwnedBy(owner), s)
    ensures IsListing(files, EditedBy(owner), EditedOnly(files, s))
  {
    var r := EditedOnly(files, s);
    forall i | 0 <= i < |r| ensures InScope(EditedBy(owner), files[r[i]]) {
      assert r[i] in r;
      var j :| 0 <= j < |s| && s[j] == r[i];
    }
  }
}
