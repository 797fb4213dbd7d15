/** The audio player's queue and playback decisions: which track comes
    next, what happens when a track ends, the loop button, and the queue
    edits. A track carries more fields than these; only the ones the
    decisions read are kept. */
module Player {
  import opened Wrappers
  import Js
  import Models

  datatype Track = Track(id: int, lossyStatus: Option<string>)

  // ---------------------------------------------------------------------------
  // Loop mode

  datatype LoopMode = Off | TrackLoop | ProjectLoop

  /** `toggleLoop`: off, then track, then project, then off again. */
  function ToggleLoop(m: LoopMode): (next: LoopMode)
    ensures next != m
    ensures m == Off ==> next == TrackLoop
    ensures m == TrackLoop ==> next == ProjectLoop
    ensures m == ProjectLoop ==> next == Off
  {
    match m
    case Off => TrackLoop
    case TrackLoop => ProjectLoop
    case ProjectLoop => Off
  }

  /** Three presses come back to the start, and every mode is reached on
      the way. */
  lemma ToggleLoopCycles(m: LoopMode, target: LoopMode)
    ensures ToggleLoop(ToggleLoop(ToggleLoop(m))) == m
    ensures ToggleLoop(ToggleLoop(m)) != m
    ensures target == m || target == ToggleLoop(m) || target == ToggleLoop(ToggleLoop(m))
  {
  }

  // ---------------------------------------------------------------------------
  // The play guard

  /** `play` returns at once when the track's lossy status is set (a
      non-empty string) and is not "completed". */
  function PlayProceeds(t: Track): (proceeds: bool)
    ensures t.lossyStatus.None? ==> proceeds
    ensures t.lossyStatus == Some("completed") ==> proceeds
  {
    t.lossyStatus.None? || t.lossyStatus.value == "" || t.lossyStatus.value == "completed"
  }

  /** For a status the server writes, the track plays iff its lossy file is
      completed: pending, processing and failed tracks are not played. */
  lemma PlayOnlyWhenCompleted(t: Track, s: Models.TranscodingStatus)
    requires t.lossyStatus == Some(s.Name())
    ensures PlayProceeds(t) <==> s == Models.Completed
  {
    Models.StatusNamesDistinct(s, Models.Completed);
  }

  // ---------------------------------------------------------------------------
  // The next track

  /** `findIndex` on the track id: the first position holding `id`, or -1. */
  function FindIndexById(list: seq<Track>, id: int): (r: int)
    ensures -1 <= r < |list|
    ensures r >= 0 ==> list[r].id == id && forall j :: 0 <= j < r ==> list[j].id != id
    ensures r == -1 ==> forall j :: 0 <= j < |list| ==> list[j].id != id
  {
    if list == [] then -1
    else if list[0].id == id then 0
    else
      var k := FindIndexById(list[1..], id);
      if k == -1 then -1 else k + 1
  }

  /** The list the player walks through: the shuffled order when shuffle is
      on and that order is non-empty, otherwise the project's order; nothing
      when the project list is empty. */
  function ActiveList(projectTracks: seq<Track>, shuffled: seq<Track>, isShuffled: bool): (list: seq<Track>)
    ensures list == [] || list == shuffled || list == projectTracks
    ensures projectTracks != [] ==> list != []
  {
    if projectTracks == [] then []
    else if isShuffled && shuffled != [] then shuffled
    else projectTracks
  }

  /** `getNextTrack`. */
  function GetNextTrack(current: Option<Track>, queue: seq<Track>, projectTracks: seq<Track>,
                        shuffled: seq<Track>, isShuffled: bool): (r: Option<Track>)
    ensures current.None? ==> r.None?
    ensures current.Some? && queue != [] ==> r == Some(queue[0])
    ensures r.Some? ==> r.value in queue || r.value in projectTracks || r.value in shuffled
  {
    if current.None? then None
    else if queue != [] then Some(queue[0])
    else if projectTracks != [] then
      if isShuffled && shuffled != [] then
        var i := FindIndexById(shuffled, current.value.id);
        if i != -1 && i < |shuffled| - 1 then Some(shuffled[i + 1]) else None
      else
        var i := FindIndexById(projectTracks, current.value.id);
        if i != -1 && i < |projectTracks| - 1 then Some(projectTracks[i + 1]) else None
    else None
  }

  /** With an empty queue the next track is the one after the current
      track's first occurrence in the active list; there is none when the
      current track is last or not in the list. */
  lemma NextIsSuccessor(current: Track, projectTracks: seq<Track>, shuffled: seq<Track>, isShuffled: bool)
    ensures var list := ActiveList(projectTracks, shuffled, isShuffled);
            var r := GetNextTrack(Some(current), [], projectTracks, shuffled, isShuffled);
            && (r.Some? <==> exists i :: 0 <= i < |list| - 1 && list[i].id == current.id)
            && (r.Some? ==> exists i :: 0 <= i < |list| - 1 && list[i].id == current.id
                              && (forall j :: 0 <= j < i ==> list[j].id != current.id)
                              && r.value == list[i + 1])
  {
    var list := ActiveList(projectTracks, shuffled, isShuffled);
    var r := GetNextTrack(Some(current), [], projectTracks, shuffled, isShuffled);
    var k := FindIndexById(list, current.id);
    assert projectTracks != [] ==> k == FindIndexById(if isShuffled && shuffled != [] then shuffled else projectTracks, current.id);
    if r.Some? {
      assert 0 <= k < |list| - 1 && r.value == list[k + 1];
    }
  }

  // ---------------------------------------------------------------------------
  // When a track ends

  /** What `onEnded` does: nothing, play a given track from the top of the
      list, call `play` with no track at all, or move on as the next-track
      button does. */
  datatype EndAction = Stay | WrapTo(first: Track) | PlayUndefined | Advance

  /** `onEnded` as written: in project loop the last track wraps to the
      first, looking the track up in the shuffled list whenever shuffle is
      on, even if that list is empty. */
  function OnEndedAsWritten(mode: LoopMode, current: Option<Track>, queue: seq<Track>,
                            projectTracks: seq<Track>, shuffled: seq<Track>, isShuffled: bool): (a: EndAction)
    ensures mode == TrackLoop ==> a == Stay
    ensures mode == Off ==> a == Advance
    ensures a.WrapTo? ==> mode == ProjectLoop && queue == []
  {
    if mode == TrackLoop then Stay
    else if mode == ProjectLoop && projectTracks != [] && current.Some? then
      var list := if isShuffled then shuffled else projectTracks;
      var i := FindIndexById(list, current.value.id);
      if i == |list| - 1 && queue == [] then
        if list != [] then WrapTo(list[0]) else PlayUndefined
      else Advance
    else Advance
  }

  /** With shuffle on and the shuffled order still empty, the missing
      track (index -1) is taken for the last one, and `play` is called with
      no track. */
  lemma EmptyShuffledOrderPlaysNothing(t: Track)
    ensures OnEndedAsWritten(ProjectLoop, Some(t), [], [t], [], true) == PlayUndefined
  {
  }

  /** `onEnded` walking the same list as `getNextTrack`. */
  function OnEnded(mode: LoopMode, current: Option<Track>, queue: seq<Track>,
                   projectTracks: seq<Track>, shuffled: seq<Track>, isShuffled: bool): (a: EndAction)
    ensures mode == TrackLoop ==> a == Stay
    ensures mode == Off ==> a == Advance
    ensures a != PlayUndefined
  {
    if mode == TrackLoop then Stay
    else if mode == ProjectLoop && projectTracks != [] && current.Some? then
      var list := ActiveList(projectTracks, shuffled, isShuffled);
      var i := FindIndexById(list, current.value.id);
      if i == |list| - 1 && queue == [] then WrapTo(list[0]) else Advance
    else Advance
  }

  /** The project loop wraps exactly when the queue is empty and the current
      track is last in the active list, and then plays that list's first
      track; this is also exactly when there is no next track. */
  lemma WrapsAtEnd(current: Track, queue: seq<Track>, projectTracks: seq<Track>, shuffled: seq<Track>, isShuffled: bool)
    requires projectTracks != []
    ensures var list := ActiveList(projectTracks, shuffled, isShuffled);
            var a := OnEnded(ProjectLoop, Some(current), queue, projectTracks, shuffled, isShuffled);
            && (a.WrapTo? <==> queue == [] && FindIndexById(list, current.id) == |list| - 1)
            && (a.WrapTo? ==> a.first == list[0]
                              && GetNextTrack(Some(current), queue, projectTracks, shuffled, isShuffled).None?)
  {
    var list := ActiveList(projectTracks, shuffled, isShuffled);
    assert list == (if isShuffled && shuffled != [] then shuffled else projectTracks);
  }

  /** Whenever the shuffled order is in place (or shuffle is off) the
      corrected `onEnded` does what the written one does. */
  lemma OnEndedAgrees(mode: LoopMode, current: Option<Track>, queue: seq<Track>,
                      projectTracks: seq<Track>, shuffled: seq<Track>, isShuffled: bool)
    requires !isShuffled || shuffled != []
    ensures OnEnded(mode, current, queue, projectTracks, shuffled, isShuffled)
            == OnEndedAsWritten(mode, current, queue, projectTracks, shuffled, isShuffled)
  {
  }

  // ---------------------------------------------------------------------------
  // Removing from the queue

  /** `filter((_, i) => i !== index)` over `q`, whose first element sits at
      position `offset`. */
  function DropPosition(q: seq<Track>, index: int, offset: int): (r: seq<Track>)
    ensures 0 <= index - offset < |q| ==> r == q[..index - offset] + q[index - offset + 1..]
    ensures !(0 <= index - offset < |q|) ==> r == q
    decreases |q|
  {
    if q == [] then []
    else (if offset == index then [] else [q[0]]) + DropPosition(q[1..], index, offset + 1)
  }

  datatype QueueState = QueueState(queue: seq<Track>, original: seq<Track>)

  /** `removeFromQueue`: the entry at `index` leaves the queue; with shuffle
      on, the first track of the same id also leaves the pre-shuffle
      order kept for turning shuffle off. */
  function RemoveFromQueue(s: QueueState, index: int, isShuffled: bool): (r: QueueState)
    ensures 0 <= index < |s.queue| ==> r.queue == s.queue[..index] + s.queue[index + 1..]
    ensures !(0 <= index < |s.queue|) ==> r == s
    ensures !isShuffled ==> r.original == s.original
    ensures |s.original| - 1 <= |r.original| <= |s.original|
  {
    var queue := DropPosition(s.queue, index, 0);
    if isShuffled && s.original != [] && 0 <= index < |s.queue| then
      var k := FindIndexById(s.original, s.queue[index].id);
      if k != -1 then QueueState(queue, DropPosition(s.original, k, 0))
      else QueueState(queue, s.original)
    else QueueState(queue, s.original)
  }

  /** Removing keeps every other entry, in order: the queue loses exactly
      one copy of the removed track. */
  lemma RemoveKeepsRest(s: QueueState, index: int, isShuffled: bool)
    requires 0 <= index < |s.queue|
    ensures multiset(RemoveFromQueue(s, index, isShuffled).queue) + multiset{s.queue[index]} == multiset(s.queue)
    ensures forall j :: 0 <= j < |s.queue| - 1 ==>
              RemoveFromQueue(s, index, isShuffled).queue[j] == s.queue[if j < index then j else j + 1]
  {
    var q := s.queue;
    var r := RemoveFromQueue(s, index, isShuffled).queue;
    assert r == q[..index] + q[index + 1..];
    assert q == q[..index] + [q[index]] + q[index + 1..];
    assert multiset(q) == multiset(q[..index]) + multiset{q[index]} + multiset(q[index + 1..]);
    forall j | 0 <= j < |q| - 1
      ensures r[j] == q[if j < index then j else j + 1]
    {
      if j < index {
        assert r[j] == q[..index][j];
      } else {
        assert r[j] == q[index + 1..][j - index];
      }
    }
  }

  // ---------------------------------------------------------------------------
  // Reordering the queue

  /** `reorderQueue`: the entry at `startIndex` is cut out with `splice`
      and put back at `endIndex` of what remains. Both positions follow
      `splice`: negative counts from the end, too large means the end. */
  function ReorderQueue(q: seq<Track>, startIndex: int, endIndex: int): (r: seq<Track>)
    requires Js.Index(startIndex, |q|) < |q|
    ensures |r| == |q|
    ensures var s := Js.Index(startIndex, |q|);
            var e := Js.Index(endIndex, |q| - 1);
            r[e] == q[s] && r[..e] + r[e + 1..] == q[..s] + q[s + 1..]
  {
    var s := Js.Index(startIndex, |q|);
    var rest := q[..s] + q[s + 1..];
    var e := Js.Index(endIndex, |rest|);
    var r := rest[..e] + [q[s]] + rest[e..];
    assert r[..e] == rest[..e];
    assert r[e + 1..] == rest[e..];
    assert rest[..e] + rest[e..] == rest;
    r
  }

  /** Reordering only moves an entry: the same tracks, as often each. */
  lemma ReorderIsPermutation(q: seq<Track>, startIndex: int, endIndex: int)
    requires Js.Index(startIndex, |q|) < |q|
    ensures multiset(ReorderQueue(q, startIndex, endIndex)) == multiset(q)
  {
    var r := ReorderQueue(q, startIndex, endIndex);
    var s := Js.Index(startIndex, |q|);
    var e := Js.Index(endIndex, |q| - 1);
    assert r == r[..e] + [r[e]] + r[e + 1..];
    assert q == q[..s] + [q[s]] + q[s + 1..];
    assert multiset(r) == multiset(r[..e] + r[e + 1..]) + multiset{r[e]};
    assert multiset(q) == multiset(q[..s] + q[s + 1..]) + multiset{q[s]};
  }

  /** Dragging an entry back to where it came from restores the queue. */
  lemma ReorderBack(q: seq<Track>, startIndex: int, endIndex: int)
    requires 0 <= startIndex < |q| && 0 <= endIndex < |q|
    ensures ReorderQueue(ReorderQueue(q, startIndex, endIndex), endIndex, startIndex) == q
  {
    var r := ReorderQueue(q, startIndex, endIndex);
    var back := ReorderQueue(r, endIndex, startIndex);
    var rest := q[..startIndex] + q[startIndex + 1..];
    assert r[..endIndex] + r[endIndex + 1..] == rest;
    assert back[..startIndex] + back[startIndex + 1..] == rest;
    assert back[startIndex] == q[startIndex];
    assert q == q[..startIndex] + [q[startIndex]] + q[startIndex + 1..];
    assert back == back[..startIndex] + [back[startIndex]] + back[startIndex + 1..];
    assert back[..startIndex] == rest[..startIndex];
    assert back[startIndex + 1..] == rest[startIndex..];
  }
}
