/**
 * `useLabelToggle`: splitting the selected tracks by whether they carry a label, and the
 * all-or-nothing toggle built on it — remove the label from every track when all of them
 * have it, otherwise add it to the tracks that lack it.
 */
module LabelToggle {
  import opened Wrappers
  import Seqs

  /** A label: its database id and its name. */
  datatype Label = Label(id: int, name: string)

  /** A track: its database id and the label ids of its `trackLabels`, in their order. */
  datatype Track = Track(id: int, labelIds: seq<int>)

  /** `track.trackLabels.some((trackLabel) => trackLabel.labelId === label.id)`. */
  predicate HasLabel(track: Track, lbl: Label) {
    lbl.id in track.labelIds
  }

  /** The test `HasLabel` as a value, for filtering. */
  function Has(lbl: Label): (p: Track -> bool)
    ensures forall t :: p(t) == HasLabel(t, lbl)
  {
    (t: Track) => HasLabel(t, lbl)
  }

  /** Its negation. */
  function Lacks(lbl: Label): (p: Track -> bool)
    ensures forall t :: p(t) == !HasLabel(t, lbl)
  {
    (t: Track) => !HasLabel(t, lbl)
  }

  /** The two halves of `partitionTracks`. */
  datatype Parts = Parts(tracksWithLabel: seq<Track>, tracksWithoutLabel: seq<Track>)

  /** `partitionTracks` (lodash `partition`): each track goes to one half, in input order. */
  function PartitionTracks(tracks: seq<Track>, lbl: Label): (r: Parts)
    ensures |r.tracksWithLabel| + |r.tracksWithoutLabel| == |tracks|
    ensures multiset(r.tracksWithLabel) + multiset(r.tracksWithoutLabel) == multiset(tracks)
    ensures forall t :: t in r.tracksWithLabel <==> t in tracks && HasLabel(t, lbl)
    ensures forall t :: t in r.tracksWithoutLabel <==> t in tracks && !HasLabel(t, lbl)
  {
    if tracks == [] then Parts([], [])
    else
      var rest := PartitionTracks(tracks[1..], lbl);
      assert tracks == [tracks[0]] + tracks[1..];
      assert multiset(tracks) == multiset{tracks[0]} + multiset(tracks[1..]);
      if HasLabel(tracks[0], lbl) then Parts([tracks[0]] + rest.tracksWithLabel, rest.tracksWithoutLabel)
      else Parts(rest.tracksWithLabel, [tracks[0]] + rest.tracksWithoutLabel)
  }

  /** Both halves keep the input order: they are the in-order filters by the label test and
      by its negation. */
  lemma {:induction false} PartitionIsFilter(tracks: seq<Track>, lbl: Label)
    ensures PartitionTracks(tracks, lbl).tracksWithLabel == Seqs.Filter(tracks, Has(lbl))
    ensures PartitionTracks(tracks, lbl).tracksWithoutLabel == Seqs.Filter(tracks, Lacks(lbl))
  {
    if tracks != [] {
      PartitionIsFilter(tracks[1..], lbl);
    }
  }

  /** `tracks.map((track) => track.id)`. */
  function Ids(tracks: seq<Track>): (ids: seq<int>)
    ensures |ids| == |tracks|
    ensures forall i :: 0 <= i < |tracks| ==> ids[i] == tracks[i].id
  {
    seq(|tracks|, i requires 0 <= i < |tracks| => tracks[i].id)
  }

  /** The id of a track is among the ids of a sequence exactly when some track of the
      sequence has that id. */
  lemma IdsExact(tracks: seq<Track>, id: int)
    ensures id in Ids(tracks) <==> exists t :: t in tracks && t.id == id
  {
    if id in Ids(tracks) {
      var i :| 0 <= i < |tracks| && Ids(tracks)[i] == id;
      assert tracks[i] in tracks;
    }
  }

  /** The request `toggleLabel` sends: `addLabels` or `removeLabels` with a label id and the
      ids of the tracks to change. */
  datatype LabelMutation =
    | AddLabels(labelId: int, trackIds: seq<int>)
    | RemoveLabels(labelId: int, trackIds: seq<int>)

  /** The add-or-remove decision in `toggleLabel`: nothing for no tracks, removal from the
      tracks with the label when none lacks it, otherwise addition to the tracks lacking it. */
  function ToggleRequest(tracks: seq<Track>, lbl: Label): (r: Option<LabelMutation>)
    ensures r.None? <==> tracks == []
    ensures r.Some? ==> r.value.labelId == lbl.id
    ensures r.Some? && r.value.RemoveLabels? <==>
      tracks != [] && forall t :: t in tracks ==> HasLabel(t, lbl)
    ensures r.Some? && r.value.RemoveLabels? ==> r.value.trackIds == Ids(tracks)
    ensures r.Some? && r.value.AddLabels? ==>
      r.value.trackIds == Ids(PartitionTracks(tracks, lbl).tracksWithoutLabel)
  {
    if |tracks| == 0 then None
    else
      var parts := PartitionTracks(tracks, lbl);
      if |parts.tracksWithoutLabel| == 0 then
        PartitionIsFilter(tracks, lbl);
        Seqs.FilterAll(tracks, Has(lbl));
        Some(RemoveLabels(lbl.id, Ids(parts.tracksWithLabel)))
      else
        assert parts.tracksWithoutLabel[0] in parts.tracksWithoutLabel;
        Some(AddLabels(lbl.id, Ids(parts.tracksWithoutLabel)))
  }

  /** An add request never names a track that already has the label, and names every
      track that lacks it. */
  lemma AddSkipsLabelled(tracks: seq<Track>, lbl: Label, t: Track)
    requires ToggleRequest(tracks, lbl).Some? && ToggleRequest(tracks, lbl).value.AddLabels?
    requires t in tracks
    requires forall u :: u in tracks && u.id == t.id ==> u == t
    ensures t.id in ToggleRequest(tracks, lbl).value.trackIds <==> !HasLabel(t, lbl)
  {
    IdsExact(PartitionTracks(tracks, lbl).tracksWithoutLabel, t.id);
  }

  /** The label ids of each of the user's tracks, by track id, as the database holds them. */
  type TrackLabels = map<int, set<int>>

  /** A successful `addLabels`: each named track that exists gains the label; tracks not
      named and the track's other labels are untouched. */
  function ConnectLabel(db: TrackLabels, labelId: int, trackIds: seq<int>): (r: TrackLabels)
    ensures r.Keys == db.Keys
    ensures forall id :: id in db ==> (labelId in r[id] <==> id in trackIds || labelId in db[id])
    ensures forall id :: id in db ==> r[id] - {labelId} == db[id] - {labelId}
    ensures forall id :: id in db && id !in trackIds ==> r[id] == db[id]
  {
    map id | id in db :: if id in trackIds then db[id] + {labelId} else db[id]
  }

  /** A successful `removeLabels`: each named track that exists loses the label; tracks not
      named and the track's other labels are untouched. */
  function DisconnectLabel(db: TrackLabels, labelId: int, trackIds: seq<int>): (r: TrackLabels)
    ensures r.Keys == db.Keys
    ensures forall id :: id in db ==> (labelId in r[id] <==> id !in trackIds && labelId in db[id])
    ensures forall id :: id in db ==> r[id] - {labelId} == db[id] - {labelId}
    ensures forall id :: id in db && id !in trackIds ==> r[id] == db[id]
  {
    map id | id in db :: if id in trackIds then db[id] - {labelId} else db[id]
  }

  /** The mutation the toggle sends, applied by its resolver. */
  function ApplyMutation(db: TrackLabels, m: LabelMutation): TrackLabels {
    match m
    case AddLabels(labelId, trackIds) => ConnectLabel(db, labelId, trackIds)
    case RemoveLabels(labelId, trackIds) => DisconnectLabel(db, labelId, trackIds)
  }

  /** The tracks as shown agree with the database on the label. */
  predicate Agrees(db: TrackLabels, tracks: seq<Track>, lbl: Label) {
    forall t :: t in tracks ==> t.id in db && (lbl.id in db[t.id] <==> HasLabel(t, lbl))
  }

  /** After a successful toggle either every given track carries the label or none does:
      none when all of them had it, all otherwise. */
  lemma ToggleAllOrNothing(db: TrackLabels, tracks: seq<Track>, lbl: Label)
    requires tracks != [] && Agrees(db, tracks, lbl)
    ensures
      var r := ApplyMutation(db, ToggleRequest(tracks, lbl).value);
      && ((forall t :: t in tracks ==> HasLabel(t, lbl)) ==> forall t :: t in tracks ==> lbl.id !in r[t.id])
      && (!(forall t :: t in tracks ==> HasLabel(t, lbl)) ==> forall t :: t in tracks ==> lbl.id in r[t.id])
  {
    var m := ToggleRequest(tracks, lbl).value;
    forall t | t in tracks
      ensures m.RemoveLabels? ==> t.id in m.trackIds
      ensures m.AddLabels? && !HasLabel(t, lbl) ==> t.id in m.trackIds
    {
      if m.RemoveLabels? {
        IdsExact(tracks, t.id);
      } else if !HasLabel(t, lbl) {
        IdsExact(PartitionTracks(tracks, lbl).tracksWithoutLabel, t.id);
      }
    }
  }
}
