/** The project grid's item helpers: building grid items from folders and
    tracks, and dropping repeated projects. A project, folder or track
    carries more fields than these; only the ones the helpers read are
    kept. */
module Grid {
  import opened Wrappers
  import Text

  datatype Project = Project(id: int, name: string)
  datatype Folder = Folder(id: int, name: string)
  datatype SharedTrack = SharedTrack(publicId: string, folderId: Option<int>)

  datatype GridItem =
    | FolderItem(id: string, name: string, items: seq<Project>, folderId: Option<int>)
    | TrackItem(id: string, track: SharedTrack, trackFolderId: Option<int>)

  const FolderPrefix := "folder-"
  const TrackPrefix := "track-"

  /** `folderToGridItem`: id "folder-<id>", with the folder's id kept. */
  function FolderToGridItem(folder: Folder, items: seq<Project>): (g: GridItem)
    ensures g.FolderItem? && g.folderId == Some(folder.id) && g.items == items && g.name == folder.name
    ensures Text.HasPrefix(g.id, FolderPrefix)
  {
    FolderItem(FolderPrefix + Text.IntToString(folder.id), folder.name, items, Some(folder.id))
  }

  /** `trackToGridItem`: id "track-<public id>", in the track's folder. */
  function TrackToGridItem(track: SharedTrack): (g: GridItem)
    ensures g.TrackItem? && g.track == track && g.trackFolderId == track.folderId
    ensures Text.HasPrefix(g.id, TrackPrefix)
  {
    TrackItem(TrackPrefix + track.publicId, track, track.folderId)
  }

  /** The folder id can be read back from a folder item's id. */
  lemma FolderIdReadsBack(folder: Folder, items: seq<Project>)
    requires Text.InInt64(folder.id)
    ensures var id := FolderToGridItem(folder, items).id;
            Text.Atoi(id[|FolderPrefix|..]) == Some(folder.id)
  {
    var id := FolderToGridItem(folder, items).id;
    assert id[|FolderPrefix|..] == Text.IntToString(folder.id);
    Text.AtoiOfIntToString(folder.id);
  }

  /** Folder and track items never share an id, and items of different
      folders (or tracks) have different ids. */
  lemma GridIdsDistinct(f: Folder, items: seq<Project>, t: SharedTrack)
    ensures FolderToGridItem(f, items).id != TrackToGridItem(t).id
  {
    assert FolderToGridItem(f, items).id[0] == 'f';
    assert TrackToGridItem(t).id[0] == 't';
  }

  lemma TrackIdsDistinct(a: SharedTrack, b: SharedTrack)
    requires a.publicId != b.publicId
    ensures TrackToGridItem(a).id != TrackToGridItem(b).id
  {
    assert TrackToGridItem(a).id[|TrackPrefix|..] == a.publicId;
    assert TrackToGridItem(b).id[|TrackPrefix|..] == b.publicId;
  }

  // ---------------------------------------------------------------------------
  // dedupeProjects

  function Ids(ps: seq<Project>): set<int> {
    set i | 0 <= i < |ps| :: ps[i].id
  }

  /** Reference definition: a project is kept iff no earlier project has
      its id. */
  function FirstOccurrences(ps: seq<Project>): seq<Project> {
    if ps == [] then []
    else
      var init := ps[..|ps| - 1];
      var last := ps[|ps| - 1];
      FirstOccurrences(init) + (if last.id in Ids(init) then [] else [last])
  }

  predicate UniqueIds(ps: seq<Project>) {
    forall i, j :: 0 <= i < j < |ps| ==> ps[i].id != ps[j].id
  }

  lemma IdsSnoc(ps: seq<Project>, p: Project)
    ensures Ids(ps + [p]) == Ids(ps) + {p.id}
  {
    var qs := ps + [p];
    assert forall i :: 0 <= i < |ps| ==> qs[i] == ps[i];
    assert qs[|ps|] == p;
  }

  /** `dedupeProjects`: the loop with a set of ids already seen. */
  method DedupeProjects(projects: seq<Project>) returns (result: seq<Project>)
    ensures result == FirstOccurrences(projects)
  {
    var seen: set<int> := {};
    result := [];
    var i := 0;
    while i < |projects|
      invariant 0 <= i <= |projects|
      invariant seen == Ids(projects[..i])
      invariant result == FirstOccurrences(projects[..i])
    {
      var p := projects[i];
      assert projects[..i + 1] == projects[..i] + [p];
      assert projects[..i + 1][..i] == projects[..i];
      IdsSnoc(projects[..i], p);
      if p.id in seen {
        i := i + 1;
        continue;
      }
      seen := seen + {p.id};
      result := result + [p];
      i := i + 1;
    }
    assert projects[..|projects|] == projects;
  }

  /** The kept projects have pairwise different ids, all ids of the input
      are kept, and every kept project comes from the input. */
  lemma {:induction false} FirstOccurrencesProperties(ps: seq<Project>)
    ensures var r := FirstOccurrences(ps);
            && UniqueIds(r)
            && Ids(r) == Ids(ps)
            && (forall k :: 0 <= k < |r| ==> r[k] in ps)
  {
    if ps != [] {
      var init := ps[..|ps| - 1];
      var last := ps[|ps| - 1];
      FirstOccurrencesProperties(init);
      var r0 := FirstOccurrences(init);
      assert ps == init + [last];
      IdsSnoc(init, last);
      assert Ids(ps) == Ids(init) + {last.id};
      if last.id !in Ids(init) {
        IdsSnoc(r0, last);
        var r := r0 + [last];
        forall i, j | 0 <= i < j < |r|
          ensures r[i].id != r[j].id
        {
          if j == |r0| {
            assert r[i] == r0[i];
            assert r0[i].id in Ids(r0);
          }
        }
        forall k | 0 <= k < |r|
          ensures r[k] in ps
        {
          if k < |r0| {
            assert r[k] == r0[k];
            assert r0[k] in init;
          }
        }
      } else {
        assert r0 + [] == r0;
        assert FirstOccurrences(ps) == r0;
        forall k | 0 <= k < |r0|
          ensures r0[k] in ps
        {
          assert r0[k] in init;
        }
      }
    }
  }

  /** A kept project is the first one with its id. */
  lemma {:induction false} KeptIsFirst(ps: seq<Project>, k: nat)
    requires k < |FirstOccurrences(ps)|
    ensures exists i :: 0 <= i < |ps| && ps[i] == FirstOccurrences(ps)[k]
                        && forall j :: 0 <= j < i ==> ps[j].id != ps[i].id
  {
    var init := ps[..|ps| - 1];
    var last := ps[|ps| - 1];
    var r0 := FirstOccurrences(init);
    assert ps == init + [last];
    if k < |r0| {
      KeptIsFirst(init, k);
      var i :| 0 <= i < |init| && init[i] == r0[k] && forall j :: 0 <= j < i ==> init[j].id != init[i].id;
      assert ps[i] == init[i];
    } else {
      var i := |ps| - 1;
      forall j | 0 <= j < i
        ensures ps[j].id != ps[i].id
      {
        assert ps[j] == init[j];
      }
    }
  }

  /** Input without repeated ids is returned unchanged. */
  lemma {:induction false} FirstOccurrencesOfUnique(ps: seq<Project>)
    requires UniqueIds(ps)
    ensures FirstOccurrences(ps) == ps
  {
    if ps != [] {
      var init := ps[..|ps| - 1];
      var last := ps[|ps| - 1];
      assert UniqueIds(init);
      FirstOccurrencesOfUnique(init);
      assert last.id !in Ids(init);
      assert ps == init + [last];
    }
  }

  /** Dropping repeats twice is dropping them once. */
  lemma DedupeIdempotent(ps: seq<Project>)
    ensures FirstOccurrences(FirstOccurrences(ps)) == FirstOccurrences(ps)
  {
    FirstOccurrencesProperties(ps);
    FirstOccurrencesOfUnique(FirstOccurrences(ps));
  }
}
