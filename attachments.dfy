/**
 * The attachment list of the copilot chat (`onFileUpload` and the updates its
 * transfers trigger). Every selected file is appended as a pending attachment
 * under a fresh client id; each later event (progress, success, failure,
 * cancel, remove) replaces the whole list by a keyed map or filter over it.
 */
module Attachments {
  import opened Wrappers
  import opened ChatTypes

  /** The browser `File` fields that are copied. */
  datatype File = File(name: string, size: nat, mimeType: string)

  // ---------------------------------------------------------------------------
  // The upload limits (`fileSpec`)
  // ---------------------------------------------------------------------------

  /** `projectSettings.features.spontaneous_file_upload`, every level optional. */
  datatype UploadSettings = UploadSettings(maxSizeMb: Option<int>, maxFiles: Option<int>, accept: Option<seq<string>>)
  datatype Features = Features(spontaneousFileUpload: Option<UploadSettings>)
  datatype ProjectSettings = ProjectSettings(features: Option<Features>)

  datatype FileSpec = FileSpec(maxSizeMb: int, maxFiles: int, accept: seq<string>)

  /** The optional chain `projectSettings?.features?.spontaneous_file_upload`. */
  function UploadSettingsOf(p: Option<ProjectSettings>): Option<UploadSettings> {
    if p.Some? && p.value.features.Some? then p.value.features.value.spontaneousFileUpload else None
  }

  /** `value || fallback` for a number: absent and 0 are falsy. */
  function OrNumber(value: Option<int>, fallback: int): (r: int)
    ensures value.Some? && value.value != 0 ==> r == value.value
    ensures value.None? || value.value == 0 ==> r == fallback
  {
    if value.Some? && value.value != 0 then value.value else fallback
  }

  /** The limits handed to the uploader: 500 MB, 20 files and any type unless configured. */
  function FileSpecOf(p: Option<ProjectSettings>): (spec: FileSpec)
    ensures spec.maxSizeMb != 0 && spec.maxFiles != 0
    ensures UploadSettingsOf(p).None? ==> spec == FileSpec(500, 20, ["*/*"])
    ensures UploadSettingsOf(p).Some? ==>
      var s := UploadSettingsOf(p).value;
      spec.maxSizeMb == OrNumber(s.maxSizeMb, 500) &&
      spec.maxFiles == OrNumber(s.maxFiles, 20) &&
      spec.accept == s.accept.GetOr(["*/*"])
  {
    var s := UploadSettingsOf(p);
    FileSpec(
      OrNumber(if s.Some? then s.value.maxSizeMb else None, 500),
      OrNumber(if s.Some? then s.value.maxFiles else None, 20),
      if s.Some? then s.value.accept.GetOr(["*/*"]) else ["*/*"])
  }

  // ---------------------------------------------------------------------------
  // The keyed updates
  // ---------------------------------------------------------------------------

  /** The attachment the `payloads.map` callback returns for a selected file: pending, cancellable, progress 0. */
  function NewAttachment(file: File, id: string): (a: Attachment)
    ensures a.id == id && a.name == file.name && a.size == file.size && a.mimeType == file.mimeType
    ensures a.uploadProgress == 0 && a.serverId.None? && !a.uploaded && a.cancellable
  {
    Attachment(id, file.mimeType, file.name, file.size, 0, None, false, true)
  }

  /** The attachments built for `payloads`, in file order, with the ids drawn for them. */
  function Pending(files: seq<File>, ids: seq<string>): seq<Attachment>
    requires |files| == |ids|
  {
    seq(|files|, i requires 0 <= i < |files| => NewAttachment(files[i], ids[i]))
  }

  /** What a keyed update writes into the matching entry. */
  datatype Change =
    | SetProgress(progress: int)      // the progress callback
    | MarkUploaded(serverId: string)  // the resolved upload

  function Patched(a: Attachment, c: Change): (b: Attachment)
    ensures b.id == a.id && b.name == a.name && b.size == a.size && b.mimeType == a.mimeType
  {
    match c
    case SetProgress(p) => a.(uploadProgress := p)
    case MarkUploaded(s) => a.(serverId := Some(s), uploaded := true, uploadProgress := 100, cancellable := false)
  }

  /** `prev.map(a => a.id === id ? {...a, <change>} : a)`. */
  function Updated(list: seq<Attachment>, id: string, c: Change): (r: seq<Attachment>)
    ensures |r| == |list|
    ensures forall k :: 0 <= k < |list| ==> r[k] == if list[k].id == id then Patched(list[k], c) else list[k]
  {
    if list == [] then []
    else [if list[0].id == id then Patched(list[0], c) else list[0]] + Updated(list[1..], id, c)
  }

  /** `prev.filter(a => a.id !== id)`. */
  function Without(list: seq<Attachment>, id: string): (r: seq<Attachment>)
    ensures |r| <= |list|
  {
    if list == [] then []
    else (if list[0].id == id then [] else [list[0]]) + Without(list[1..], id)
  }

  /** The events a transfer or the user delivers for one attachment, in any order. */
  datatype Event =
    | Progress(id: string, progress: int)
    | Uploaded(id: string, serverId: string)
    | Failed(id: string)
    | Cancelled(id: string)
    | Removed(id: string)

  /** The list after one event. */
  function Apply(list: seq<Attachment>, e: Event): seq<Attachment> {
    match e
    case Progress(id, p) => Updated(list, id, SetProgress(p))
    case Uploaded(id, s) => Updated(list, id, MarkUploaded(s))
    case Failed(id) => Without(list, id)
    case Cancelled(id) => Without(list, id)
    case Removed(id) => Without(list, id)
  }

  // ---------------------------------------------------------------------------
  // The invariant of the list
  // ---------------------------------------------------------------------------

  ghost predicate DistinctIds(list: seq<Attachment>) {
    forall i, j :: 0 <= i < j < |list| ==> list[i].id != list[j].id
  }

  /** A server id exactly for the uploaded, and no cancel once uploaded. */
  ghost predicate Consistent(a: Attachment) {
    (a.serverId.Some? <==> a.uploaded) && (a.uploaded ==> !a.cancellable)
  }

  ghost predicate WellFormed(list: seq<Attachment>) {
    DistinctIds(list) && forall k :: 0 <= k < |list| ==> Consistent(list[k])
  }

  ghost predicate HasId(list: seq<Attachment>, id: string) {
    exists k :: 0 <= k < |list| && list[k].id == id
  }

  // ---------------------------------------------------------------------------
  // Properties of the updates
  // ---------------------------------------------------------------------------

  /** The filter keeps exactly the entries whose id differs, and adds nothing. */
  lemma {:induction false} WithoutMembers(list: seq<Attachment>, id: string)
    ensures forall a :: a in Without(list, id) <==> a in list && a.id != id
  {
    if list != [] {
      WithoutMembers(list[1..], id);
      var h := if list[0].id == id then [] else [list[0]];
      assert Without(list, id) == h + Without(list[1..], id);
      assert list == [list[0]] + list[1..];
    }
  }

  /** Filtering keeps the order: the filter of a concatenation is the concatenation of the filters. */
  lemma {:induction false} WithoutAppend(a: seq<Attachment>, b: seq<Attachment>, id: string)
    ensures Without(a + b, id) == Without(a, id) + Without(b, id)
  {
    if a == [] {
      assert a + b == b;
    } else {
      var ab, t := a + b, a[1..] + b;
      assert ab[0] == a[0] && ab[1..] == t;
      WithoutAppend(a[1..], b, id);
      var x, y := Without(a[1..], id), Without(b, id);
      if a[0].id == id {
        assert Without(ab, id) == [] + Without(t, id);
        assert Without(a, id) == [] + x;
      } else {
        assert Without(ab, id) == [a[0]] + (x + y);
        assert Without(a, id) == [a[0]] + x;
        assert [a[0]] + (x + y) == ([a[0]] + x) + y;
      }
    }
  }

  /** Removing an id that is not there changes nothing. */
  lemma {:induction false} WithoutAbsent(list: seq<Attachment>, id: string)
    requires !HasId(list, id)
    ensures Without(list, id) == list
  {
    if list != [] {
      assert !HasId(list[1..], id) by {
        forall k | 0 <= k < |list| - 1 ensures list[1..][k].id != id {
          assert list[1..][k] == list[k + 1];
        }
      }
      WithoutAbsent(list[1..], id);
      assert list[0].id != id;
      assert [list[0]] + list[1..] == list;
    }
  }

  /** After a removal the id is gone. */
  lemma {:induction false} WithoutRemovesId(list: seq<Attachment>, id: string)
    ensures !HasId(Without(list, id), id)
  {
    var r := Without(list, id);
    WithoutMembers(list, id);
    forall k | 0 <= k < |r| ensures r[k].id != id {
      assert r[k] in r;
    }
  }

  /** Cancel and remove are idempotent: a second one is a no-op. */
  lemma {:induction false} WithoutTwice(list: seq<Attachment>, id: string)
    ensures Without(Without(list, id), id) == Without(list, id)
  {
    WithoutRemovesId(list, id);
    WithoutAbsent(Without(list, id), id);
  }

  /** A keyed update for an id that is not there changes nothing. */
  lemma {:induction false} UpdatedAbsent(list: seq<Attachment>, id: string, c: Change)
    requires !HasId(list, id)
    ensures Updated(list, id, c) == list
  {
    var r := Updated(list, id, c);
    forall k | 0 <= k < |list| ensures r[k] == list[k] {
      assert list[k].id != id;
    }
  }

  /** Any event for an id not in the list has no observable effect. */
  lemma {:induction false} UnknownIdIgnored(list: seq<Attachment>, e: Event)
    requires !HasId(list, e.id)
    ensures Apply(list, e) == list
  {
    match e
    case Progress(id, p) => UpdatedAbsent(list, id, SetProgress(p));
    case Uploaded(id, s) => UpdatedAbsent(list, id, MarkUploaded(s));
    case Failed(id) => WithoutAbsent(list, id);
    case Cancelled(id) => WithoutAbsent(list, id);
    case Removed(id) => WithoutAbsent(list, id);
  }

  /** Once an attachment is gone, every later event for it (late progress, late success, a second cancel) is discarded. */
  lemma {:induction false} LateEventIgnored(list: seq<Attachment>, gone: Event, late: Event)
    requires gone.Failed? || gone.Cancelled? || gone.Removed?
    requires late.id == gone.id
    ensures Apply(Apply(list, gone), late) == Apply(list, gone)
  {
    WithoutRemovesId(list, gone.id);
    UnknownIdIgnored(Apply(list, gone), late);
  }

  /** Two keyed updates of different attachments commute. */
  lemma {:induction false} UpdatedCommute(list: seq<Attachment>, id1: string, c1: Change, id2: string, c2: Change)
    requires id1 != id2
    ensures Updated(Updated(list, id1, c1), id2, c2) == Updated(Updated(list, id2, c2), id1, c1)
  {
    var r1 := Updated(Updated(list, id1, c1), id2, c2);
    var r2 := Updated(Updated(list, id2, c2), id1, c1);
    forall k | 0 <= k < |list| ensures r1[k] == r2[k] {
      assert Updated(list, id1, c1)[k].id == list[k].id;
      assert Updated(list, id2, c2)[k].id == list[k].id;
    }
  }

  /** Two removals commute. */
  lemma {:induction false} WithoutCommute(list: seq<Attachment>, id1: string, id2: string)
    ensures Without(Without(list, id1), id2) == Without(Without(list, id2), id1)
  {
    if list != [] {
      var h := [list[0]];
      assert list == h + list[1..];
      WithoutAppend(h, list[1..], id1);
      WithoutAppend(h, list[1..], id2);
      WithoutAppend(Without(h, id1), Without(list[1..], id1), id2);
      WithoutAppend(Without(h, id2), Without(list[1..], id2), id1);
      WithoutCommute(list[1..], id1, id2);
      assert h[1..] == [];
    }
  }

  /** A keyed update and the removal of another attachment commute. */
  lemma {:induction false} UpdatedWithoutCommute(list: seq<Attachment>, id1: string, c: Change, id2: string)
    requires id1 != id2
    ensures Without(Updated(list, id1, c), id2) == Updated(Without(list, id2), id1, c)
  {
    if list != [] {
      var u := Updated(list, id1, c);
      assert u == [u[0]] + u[1..];
      assert u[1..] == Updated(list[1..], id1, c);
      WithoutAppend([u[0]], u[1..], id2);
      assert [u[0]][1..] == [];
      UpdatedWithoutCommute(list[1..], id1, c, id2);
      var w := Without(list, id2);
      if list[0].id == id2 {
        assert w == Without(list[1..], id2);
      } else {
        assert w == [list[0]] + Without(list[1..], id2);
        assert w[1..] == Without(list[1..], id2);
      }
    }
  }

  /** Events for different attachments commute: completions may arrive in any order. */
  lemma {:induction false} EventsCommute(list: seq<Attachment>, e1: Event, e2: Event)
    requires e1.id != e2.id
    ensures Apply(Apply(list, e1), e2) == Apply(Apply(list, e2), e1)
  {
    var keyed1 := e1.Progress? || e1.Uploaded?;
    var keyed2 := e2.Progress? || e2.Uploaded?;
    var c1 := if e1.Progress? then SetProgress(e1.progress) else if e1.Uploaded? then MarkUploaded(e1.serverId) else SetProgress(0);
    var c2 := if e2.Progress? then SetProgress(e2.progress) else if e2.Uploaded? then MarkUploaded(e2.serverId) else SetProgress(0);
    if keyed1 && keyed2 {
      UpdatedCommute(list, e1.id, c1, e2.id, c2);
    } else if keyed1 {
      UpdatedWithoutCommute(list, e1.id, c1, e2.id);
    } else if keyed2 {
      UpdatedWithoutCommute(list, e2.id, c2, e1.id);
    } else {
      WithoutCommute(list, e1.id, e2.id);
    }
  }

  /** The tail of a list with distinct ids has distinct ids, none of them the head's. */
  lemma {:induction false} DistinctTail(list: seq<Attachment>)
    requires DistinctIds(list) && list != []
    ensures DistinctIds(list[1..])
    ensures forall a :: a in list[1..] ==> a.id != list[0].id
  {
    var rest := list[1..];
    forall i, j | 0 <= i < j < |rest| ensures rest[i].id != rest[j].id {
      assert rest[i] == list[i + 1] && rest[j] == list[j + 1];
    }
    forall a | a in rest ensures a.id != list[0].id {
      var k :| 0 <= k < |rest| && rest[k] == a;
      assert list[k + 1] == a;
    }
  }

  /** Putting an attachment in front of a list with distinct ids, none of them its own, keeps the ids distinct. */
  lemma {:induction false} DistinctCons(a: Attachment, w: seq<Attachment>)
    requires DistinctIds(w)
    requires forall b :: b in w ==> b.id != a.id
    ensures DistinctIds([a] + w)
  {
    var r := [a] + w;
    forall i, j | 0 <= i < j < |r| ensures r[i].id != r[j].id {
      assert r[j] == w[j - 1];
      if i == 0 {
        assert r[j] in w;
      } else {
        assert r[i] == w[i - 1];
      }
    }
  }

  /** Removal keeps distinct ids distinct. */
  lemma {:induction false} WithoutDistinct(list: seq<Attachment>, id: string)
    requires DistinctIds(list)
    ensures DistinctIds(Without(list, id))
  {
    if list != [] {
      DistinctTail(list);
      WithoutDistinct(list[1..], id);
      if list[0].id != id {
        WithoutMembers(list[1..], id);
        DistinctCons(list[0], Without(list[1..], id));
      }
    }
  }

  /** Every event keeps the list well formed. */
  lemma {:induction false} ApplyWellFormed(list: seq<Attachment>, e: Event)
    requires WellFormed(list)
    ensures WellFormed(Apply(list, e))
  {
    var r := Apply(list, e);
    if e.Progress? || e.Uploaded? {
      forall i, j | 0 <= i < j < |r| ensures r[i].id != r[j].id {
        assert r[i].id == list[i].id && r[j].id == list[j].id;
      }
      forall k | 0 <= k < |r| ensures Consistent(r[k]) {
        assert Consistent(list[k]);
      }
    } else {
      WithoutDistinct(list, e.id);
      WithoutMembers(list, e.id);
      forall k | 0 <= k < |r| ensures Consistent(r[k]) {
        assert r[k] in r;
        var j :| 0 <= j < |list| && list[j] == r[k];
        assert Consistent(list[j]);
      }
    }
  }

  /** Enqueueing `payloads` under fresh, distinct ids keeps the list well formed. */
  lemma {:induction false} EnqueueWellFormed(list: seq<Attachment>, files: seq<File>, ids: seq<string>)
    requires WellFormed(list) && |files| == |ids|
    requires forall i, j :: 0 <= i < j < |ids| ==> ids[i] != ids[j]
    requires forall i :: 0 <= i < |ids| ==> !HasId(list, ids[i])
    ensures WellFormed(list + Pending(files, ids))
  {
    var added := Pending(files, ids);
    var r := list + added;
    forall i, j | 0 <= i < j < |r| ensures r[i].id != r[j].id {
      if j >= |list| && i < |list| {
        assert r[j].id == ids[j - |list|];
        assert !HasId(list, ids[j - |list|]);
        assert r[i] == list[i];
      } else if i >= |list| {
        assert r[i].id == ids[i - |list|] && r[j].id == ids[j - |list|];
      } else {
        assert r[i] == list[i] && r[j] == list[j];
      }
    }
    forall k | 0 <= k < |r| ensures Consistent(r[k]) {
      if k < |list| {
        assert r[k] == list[k];
      } else {
        assert r[k] == NewAttachment(files[k - |list|], ids[k - |list|]);
      }
    }
  }

  /** Enqueueing appends exactly one pending attachment per file, in file order, after all existing ones. */
  lemma {:induction false} EnqueueAppends(list: seq<Attachment>, files: seq<File>, ids: seq<string>)
    requires |files| == |ids|
    ensures var r := list + Pending(files, ids);
      |r| == |list| + |files| && r[..|list|] == list &&
      forall i :: 0 <= i < |files| ==>
        r[|list| + i].id == ids[i] && r[|list| + i].name == files[i].name &&
        r[|list| + i].size == files[i].size && r[|list| + i].mimeType == files[i].mimeType &&
        r[|list| + i].uploadProgress == 0 && !r[|list| + i].uploaded
  {
    var r := list + Pending(files, ids);
    assert r[..|list|] == list;
    forall i | 0 <= i < |files| ensures r[|list| + i] == NewAttachment(files[i], ids[i]) {
    }
  }

  /** No event makes the list longer; keyed updates keep its length. */
  lemma {:induction false} ApplyLength(list: seq<Attachment>, e: Event)
    ensures |Apply(list, e)| <= |list|
    ensures e.Progress? || e.Uploaded? ==> |Apply(list, e)| == |list|
  {
  }

  // ---------------------------------------------------------------------------
  // The file each id was drawn for
  // ---------------------------------------------------------------------------

  /** The name of the file each of `ids` was drawn for: what the closures of one `onFileUpload` capture. */
  function Recorded(files: seq<File>, ids: seq<string>): map<string, string>
    requires |files| == |ids|
    decreases |files|
  {
    if files == [] then map[]
    else Recorded(files[..|files| - 1], ids[..|ids| - 1])[ids[|ids| - 1] := files[|files| - 1].name]
  }

  /** Recording one more file: the map so far with the next id added. */
  lemma {:induction false} RecordedStep(names: map<string, string>, files: seq<File>, ids: seq<string>, i: nat)
    requires |files| == |ids| && i < |files|
    ensures (names + Recorded(files[..i], ids[..i]))[ids[i] := files[i].name] == names + Recorded(files[..i + 1], ids[..i + 1])
  {
    assert files[..i + 1][..i] == files[..i] && ids[..i + 1][..i] == ids[..i];
    var r := Recorded(files[..i], ids[..i]);
    assert Recorded(files[..i + 1], ids[..i + 1]) == r[ids[i] := files[i].name];
  }

  /** The recorded names are keyed exactly by the drawn ids, each mapped to its own file's name. */
  lemma {:induction false} RecordedLookup(files: seq<File>, ids: seq<string>)
    requires |files| == |ids|
    requires forall i, j :: 0 <= i < j < |ids| ==> ids[i] != ids[j]
    ensures forall x :: x in Recorded(files, ids) <==> x in ids
    ensures forall i :: 0 <= i < |ids| ==> Recorded(files, ids)[ids[i]] == files[i].name
    decreases |files|
  {
    if files != [] {
      var n := |files| - 1;
      var fs, prior := files[..n], ids[..n];
      RecordedLookup(fs, prior);
      forall x ensures x in Recorded(files, ids) <==> x in ids {
        assert x in ids <==> x in prior || x == ids[n] by {
          assert ids == prior + [ids[n]];
        }
      }
      forall i | 0 <= i < |ids| ensures Recorded(files, ids)[ids[i]] == files[i].name {
        if i < n {
          assert prior[i] == ids[i] && fs[i] == files[i];
        }
      }
    }
  }

  /** Every listed attachment's id is known, with the name of the file it was created for. */
  ghost predicate Named(list: seq<Attachment>, names: map<string, string>) {
    forall k :: 0 <= k < |list| ==> list[k].id in names && names[list[k].id] == list[k].name
  }

  /** No event loses the name of a listed attachment. */
  lemma {:induction false} ApplyNamed(list: seq<Attachment>, names: map<string, string>, e: Event)
    requires Named(list, names)
    ensures Named(Apply(list, e), names)
  {
    var r := Apply(list, e);
    if e.Progress? || e.Uploaded? {
      forall k | 0 <= k < |r| ensures r[k].id == list[k].id && r[k].name == list[k].name {
      }
    } else {
      WithoutMembers(list, e.id);
      forall k | 0 <= k < |r| ensures r[k].id in names && names[r[k].id] == r[k].name {
        assert r[k] in r;
        var j :| 0 <= j < |list| && list[j] == r[k];
      }
    }
  }

  /** Enqueueing under ids not known before keeps every listed attachment named, the new ones by their files. */
  lemma {:induction false} EnqueueNamed(list: seq<Attachment>, names: map<string, string>, files: seq<File>, ids: seq<string>)
    requires Named(list, names) && |files| == |ids|
    requires forall i, j :: 0 <= i < j < |ids| ==> ids[i] != ids[j]
    requires forall i :: 0 <= i < |ids| ==> ids[i] !in names
    ensures Named(list + Pending(files, ids), names + Recorded(files, ids))
  {
    RecordedLookup(files, ids);
    var r, m := list + Pending(files, ids), names + Recorded(files, ids);
    forall k | 0 <= k < |r| ensures r[k].id in m && m[r[k].id] == r[k].name {
      if k < |list| {
        assert r[k] == list[k];
        assert list[k].id !in ids;
      } else {
        assert r[k] == NewAttachment(files[k - |list|], ids[k - |list|]);
        assert ids[k - |list|] in ids;
      }
    }
  }

  /** Ids not known before are not listed either. */
  lemma {:induction false} UnknownNotListed(list: seq<Attachment>, names: map<string, string>, id: string)
    requires Named(list, names) && id !in names
    ensures !HasId(list, id)
  {
  }

  // ---------------------------------------------------------------------------
  // The component's state
  // ---------------------------------------------------------------------------

  /** A side effect of the upload code: a `toast`, or the abort of a transfer. */
  datatype Effect = ErrorToast(text: string) | InfoToast(text: string) | Abort(id: string)

  /**
   * The attachment atom of the chat; the file name each drawn id was created
   * for, which the callbacks and closures of that id capture; and the side
   * effects raised, in order.
   */
  class AttachmentList {
    var attachments: seq<Attachment>
    var names: map<string, string>
    var effects: seq<Effect>

    ghost predicate Valid()
      reads this
    {
      WellFormed(attachments) && Named(attachments, names)
    }

    constructor ()
      ensures Valid() && attachments == [] && names == map[] && effects == []
    {
      attachments, names, effects := [], map[], [];
    }

    /**
     * `onFileUpload(payloads)` with the ids `uuidv4` draws passed in; starting
     * each transfer is the transport's business.
     */
    method OnFileUpload(payloads: seq<File>, ids: seq<string>)
      requires Valid() && |ids| == |payloads|
      requires forall i, j :: 0 <= i < j < |ids| ==> ids[i] != ids[j]
      requires forall i :: 0 <= i < |ids| ==> ids[i] !in names
      modifies this
      ensures Valid()
      ensures attachments == old(attachments) + Pending(payloads, ids)
      ensures names == old(names) + Recorded(payloads, ids)
      ensures effects == old(effects)
    {
      var added: seq<Attachment> := [];
      var recorded := names;
      for i := 0 to |payloads|
        invariant added == Pending(payloads[..i], ids[..i])
        invariant recorded == names + Recorded(payloads[..i], ids[..i])
        invariant attachments == old(attachments) && names == old(names) && effects == old(effects)
      {
        RecordedStep(names, payloads, ids, i);
        added := added + [NewAttachment(payloads[i], ids[i])];
        recorded := recorded[ids[i] := payloads[i].name];
      }
      assert payloads[..|payloads|] == payloads && ids[..|ids|] == ids;
      forall i | 0 <= i < |ids| ensures !HasId(attachments, ids[i]) {
        UnknownNotListed(attachments, names, ids[i]);
      }
      EnqueueWellFormed(attachments, payloads, ids);
      EnqueueNamed(attachments, names, payloads, ids);
      attachments, names := attachments + added, recorded;
    }

    /** The progress callback of the transfer of `id`. */
    method OnProgress(id: string, progress: int)
      requires Valid()
      modifies this
      ensures Valid()
      ensures attachments == Apply(old(attachments), Progress(id, progress))
      ensures names == old(names) && effects == old(effects)
    {
      ApplyWellFormed(attachments, Progress(id, progress));
      ApplyNamed(attachments, names, Progress(id, progress));
      attachments := Updated(attachments, id, SetProgress(progress));
    }

    /** The transfer of `id` resolved with the server's id. */
    method OnUploaded(id: string, serverId: string)
      requires Valid()
      modifies this
      ensures Valid()
      ensures attachments == Apply(old(attachments), Uploaded(id, serverId))
      ensures names == old(names) && effects == old(effects)
    {
      ApplyWellFormed(attachments, Uploaded(id, serverId));
      ApplyNamed(attachments, names, Uploaded(id, serverId));
      attachments := Updated(attachments, id, MarkUploaded(serverId));
    }

    /**
     * The transfer of `id` rejected: an error toast naming the file `id` was
     * drawn for and the error, then the entry is dropped.
     */
    method OnUploadFailed(id: string, errorMessage: string)
      requires Valid() && id in names
      modifies this
      ensures Valid()
      ensures names == old(names)
      ensures attachments == Apply(old(attachments), Failed(id))
      ensures effects == old(effects) + [ErrorToast("Failed to upload " + names[id] + ": " + errorMessage)]
    {
      effects := effects + [ErrorToast("Failed to upload " + names[id] + ": " + errorMessage)];
      ApplyWellFormed(attachments, Failed(id));
      ApplyNamed(attachments, names, Failed(id));
      attachments := Without(attachments, id);
    }

    /**
     * The `cancel` closure of `id`: an info toast naming the file `id` was drawn
     * for, then the abort of its transfer, then the entry is dropped.
     */
    method Cancel(id: string)
      requires Valid() && id in names
      modifies this
      ensures Valid()
      ensures names == old(names)
      ensures attachments == Apply(old(attachments), Cancelled(id))
      ensures effects == old(effects) + [InfoToast("Cancelled upload of " + names[id]), Abort(id)]
    {
      effects := effects + [InfoToast("Cancelled upload of " + names[id])];
      effects := effects + [Abort(id)];
      ApplyWellFormed(attachments, Cancelled(id));
      ApplyNamed(attachments, names, Cancelled(id));
      attachments := Without(attachments, id);
    }

    /** The `remove` closure of `id`: the entry is dropped, the transfer left alone. */
    method Remove(id: string)
      requires Valid()
      modifies this
      ensures Valid()
      ensures attachments == Apply(old(attachments), Removed(id))
      ensures names == old(names) && effects == old(effects)
    {
      ApplyWellFormed(attachments, Removed(id));
      ApplyNamed(attachments, names, Removed(id));
      attachments := Without(attachments, id);
    }
  }
}
