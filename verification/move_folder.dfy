/** Moving a folder: which folders lie below it, and which folders it may
    be moved into. The folder list is the one the client fetched; only the
    id and the parent id of each folder are read. */
module MoveFolder {
  import opened Wrappers

  datatype Folder = Folder(id: int, parentId: Option<int>)

  /** The walk down from a folder ends only when the parent relation has no
      cycle (the client keeps no visited set). Here that is a rank on ids
      that every folder's id has strictly below its parent's. */
  predicate Acyclic(folders: seq<Folder>, rank: int -> nat) {
    forall i :: 0 <= i < |folders| && folders[i].parentId.Some? ==>
      rank(folders[i].id) < rank(folders[i].parentId.value)
  }

  /** `x` is the id of some folder in the list. */
  predicate Listed(folders: seq<Folder>, x: int) {
    exists i :: 0 <= i < |folders| && folders[i].id == x
  }

  /** `getDescendantFolderIds(start)`: the ids of the children of `start`,
      their children, and so on. The client collects them breadth-first
      into a set; the set does not depend on the visiting order. */
  function Descendants(start: int, folders: seq<Folder>, rank: int -> nat): (r: set<int>)
    requires Acyclic(folders, rank)
    ensures forall x :: x in r ==> Listed(folders, x)
    decreases rank(start), 1, 0
  {
    DescendantsUpTo(start, folders, rank, |folders|)
  }

  /** What the children among the first `k` folders contribute. */
  function DescendantsUpTo(start: int, folders: seq<Folder>, rank: int -> nat, k: nat): (r: set<int>)
    requires Acyclic(folders, rank)
    requires k <= |folders|
    ensures forall x :: x in r ==> Listed(folders, x)
    decreases rank(start), 0, k
  {
    if k == 0 then {}
    else
      var f := folders[k - 1];
      assert Listed(folders, f.id);
      DescendantsUpTo(start, folders, rank, k - 1)
      + (if f.parentId == Some(start) then {f.id} + Descendants(f.id, folders, rank) else {})
  }

  /** `x` is below `start` iff some child of `start` is `x` or has `x`
      below it. */
  lemma {:induction false} DescendantsUpToMember(start: int, folders: seq<Folder>, rank: int -> nat, k: nat, x: int)
    requires Acyclic(folders, rank) && k <= |folders|
    ensures x in DescendantsUpTo(start, folders, rank, k) <==>
              exists i :: 0 <= i < k && folders[i].parentId == Some(start)
                          && (folders[i].id == x || x in Descendants(folders[i].id, folders, rank))
  {
    if k > 0 {
      DescendantsUpToMember(start, folders, rank, k - 1, x);
    }
  }

  lemma DescendantsMember(start: int, folders: seq<Folder>, rank: int -> nat, x: int)
    requires Acyclic(folders, rank)
    ensures x in Descendants(start, folders, rank) <==>
              exists i :: 0 <= i < |folders| && folders[i].parentId == Some(start)
                          && (folders[i].id == x || x in Descendants(folders[i].id, folders, rank))
  {
    DescendantsUpToMember(start, folders, rank, |folders|, x);
  }

  /** Every folder below `start` ranks strictly below it; in particular a
      folder is never its own descendant. */
  lemma {:induction false} DescendantsRankBelow(start: int, folders: seq<Folder>, rank: int -> nat, x: int)
    requires Acyclic(folders, rank)
    requires x in Descendants(start, folders, rank)
    ensures rank(x) < rank(start)
    ensures x != start
    decreases rank(start)
  {
    DescendantsMember(start, folders, rank, x);
    var i :| 0 <= i < |folders| && folders[i].parentId == Some(start)
             && (folders[i].id == x || x in Descendants(folders[i].id, folders, rank));
    if folders[i].id != x {
      DescendantsRankBelow(folders[i].id, folders, rank, x);
    }
  }

  /** A child link: some folder with id `child` has parent `parent`. */
  predicate IsParentLink(folders: seq<Folder>, child: int, parent: int) {
    exists i :: 0 <= i < |folders| && folders[i].id == child && folders[i].parentId == Some(parent)
  }

  /** A chain of parent links from `path[0]` up to its last id. */
  predicate IsChain(folders: seq<Folder>, path: seq<int>) {
    |path| >= 2 && forall k :: 0 <= k < |path| - 1 ==> IsParentLink(folders, path[k], path[k + 1])
  }

  /** Descendants of a descendant are descendants. */
  lemma {:induction false} DescendantsTransitive(start: int, y: int, x: int, folders: seq<Folder>, rank: int -> nat)
    requires Acyclic(folders, rank)
    requires y in Descendants(start, folders, rank)
    requires x in Descendants(y, folders, rank)
    ensures x in Descendants(start, folders, rank)
    decreases rank(start)
  {
    DescendantsMember(start, folders, rank, y);
    var i :| 0 <= i < |folders| && folders[i].parentId == Some(start)
             && (folders[i].id == y || y in Descendants(folders[i].id, folders, rank));
    if folders[i].id != y {
      DescendantsRankBelow(start, folders, rank, y);
      DescendantsTransitive(folders[i].id, y, x, folders, rank);
    }
    DescendantsMember(start, folders, rank, x);
  }

  /** Every folder that reaches `start` by parent links is found. */
  lemma {:induction false} ChainFound(folders: seq<Folder>, rank: int -> nat, path: seq<int>)
    requires Acyclic(folders, rank)
    requires IsChain(folders, path)
    ensures path[0] in Descendants(path[|path| - 1], folders, rank)
    decreases |path|
  {
    assert IsParentLink(folders, path[0], path[1]);
    var i :| 0 <= i < |folders| && folders[i].id == path[0] && folders[i].parentId == Some(path[1]);
    DescendantsMember(path[1], folders, rank, path[0]);
    if |path| > 2 {
      var rest := path[1..];
      assert forall k :: 0 <= k < |rest| ==> rest[k] == path[k + 1];
      ChainFound(folders, rank, rest);
      DescendantsTransitive(path[|path| - 1], path[1], path[0], folders, rank);
    }
  }

  /** Every folder found reaches `start` by parent links. */
  lemma {:induction false} FoundHasChain(start: int, folders: seq<Folder>, rank: int -> nat, x: int)
    requires Acyclic(folders, rank)
    requires x in Descendants(start, folders, rank)
    ensures exists path :: IsChain(folders, path) && path[0] == x && path[|path| - 1] == start
    decreases rank(start)
  {
    DescendantsMember(start, folders, rank, x);
    var i :| 0 <= i < |folders| && folders[i].parentId == Some(start)
             && (folders[i].id == x || x in Descendants(folders[i].id, folders, rank));
    var c := folders[i].id;
    assert IsParentLink(folders, c, start);
    if c == x {
      assert IsChain(folders, [x, start]);
    } else {
      DescendantsRankBelow(start, folders, rank, x);
      FoundHasChain(c, folders, rank, x);
      var p :| IsChain(folders, p) && p[0] == x && p[|p| - 1] == c;
      var path := p + [start];
      forall k | 0 <= k < |path| - 1
        ensures IsParentLink(folders, path[k], path[k + 1])
      {
        if k < |p| - 1 {
          assert path[k] == p[k] && path[k + 1] == p[k + 1];
        } else {
          assert path[k] == c && path[k + 1] == start;
        }
      }
      assert IsChain(folders, path);
    }
  }

  /** The folders offered as move targets: all but the folder itself and
      the folders below it, in their original order. */
  function MoveTargets(current: int, folders: seq<Folder>, rank: int -> nat): (targets: seq<Folder>)
    requires Acyclic(folders, rank)
    ensures forall t :: t in targets <==>
              t in folders && t.id != current && t.id !in Descendants(current, folders, rank)
  {
    var below := Descendants(current, folders, rank);
    KeepWhere(folders, (f: Folder) => f.id != current && f.id !in below)
  }

  /** The elements that satisfy `keep`, in order (`Array.prototype.filter`). */
  function KeepWhere(xs: seq<Folder>, keep: Folder -> bool): (r: seq<Folder>)
    ensures forall x :: x in r <==> x in xs && keep(x)
    ensures |r| <= |xs|
  {
    if xs == [] then []
    else (if keep(xs[0]) then [xs[0]] else []) + KeepWhere(xs[1..], keep)
  }

  /** Moving a folder into any offered target keeps the relation acyclic:
      no target lies below the folder being moved. */
  lemma TargetNotBelow(current: int, folders: seq<Folder>, rank: int -> nat, t: Folder)
    requires Acyclic(folders, rank)
    requires t in MoveTargets(current, folders, rank)
    ensures !(exists path :: IsChain(folders, path) && path[0] == t.id && path[|path| - 1] == current)
  {
    if exists path :: IsChain(folders, path) && path[0] == t.id && path[|path| - 1] == current {
      var path :| IsChain(folders, path) && path[0] == t.id && path[|path| - 1] == current;
      ChainFound(folders, rank, path);
      assert false;
    }
  }
}
