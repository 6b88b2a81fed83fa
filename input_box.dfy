/**
 * The chat input box: on submit it builds the outbound user message, records
 * the text in the bounded input history (newest last, at most 50 entries) and
 * hands the message, with references to the uploaded attachments, to the
 * transport; on reply it builds the same message and hands it to the reply
 * primitive without touching the history.
 */
module InputBox {
  import opened Wrappers
  import opened ChatTypes

  /** `MAX_SIZE`: the capacity of the input history. */
  const MaxSize: nat := 50

  /** One recorded submission: the text and `Date.getTime()` at submission. */
  datatype InputEntry = InputEntry(content: string, createdAt: int)

  /** The input-history atom: its entries (possibly undefined) and the rest of its state, here `open`. */
  datatype InputHistory = InputHistory(open: bool, inputs: Option<seq<InputEntry>>)

  function Min(a: nat, b: nat): nat {
    if a < b then a else b
  }

  // ---------------------------------------------------------------------------
  // The bounded history
  // ---------------------------------------------------------------------------

  /** The last `n` elements of `s` (all of them when there are no more than `n`). */
  function LastN<T>(s: seq<T>, n: nat): (r: seq<T>)
    ensures |r| == Min(|s|, n)
    ensures s[|s| - |r|..] == r
  {
    if |s| > n then s[|s| - n..] else s
  }

  /** Keeping the last `n` after each step is keeping the last `n` at the end: eviction is oldest first. */
  lemma {:induction false} LastNAppend<T>(s: seq<T>, t: seq<T>, n: nat)
    ensures LastN(LastN(s, n) + t, n) == LastN(s + t, n)
  {
    var w := LastN(s, n);
    var all := s + t;
    if |s| > n {
      assert s == s[..|s| - n] + w;
      assert all == s[..|s| - n] + (w + t);
      var r1, r2 := LastN(w + t, n), LastN(all, n);
      assert |r1| == |r2|;
      forall k | 0 <= k < |r1| ensures r1[k] == r2[k] {
        assert r1[k] == (w + t)[|w + t| - |r1| + k];
        assert r2[k] == all[|all| - |r2| + k];
      }
    }
  }

  /** The entries held before a submission: `old.inputs || []` (an array is always truthy). */
  function Prior(h: InputHistory): seq<InputEntry> {
    h.inputs.GetOr([])
  }

  /**
   * The updater `onSubmit` passes to `setInputHistory`: copy the entries,
   * push the new one, keep the last `MAX_SIZE`, keep every other field.
   */
  method UpdateInputs(prev: InputHistory, msg: string, now: int) returns (next: InputHistory)
    ensures next.open == prev.open && next.inputs.Some?
    ensures next.inputs.value == LastN(Prior(prev) + [InputEntry(msg, now)], MaxSize)
    ensures |next.inputs.value| <= MaxSize
    ensures next.inputs.value[|next.inputs.value| - 1] == InputEntry(msg, now)
    ensures |Prior(prev)| < MaxSize ==> next.inputs.value == Prior(prev) + [InputEntry(msg, now)]
    ensures |Prior(prev)| >= MaxSize ==>
      next.inputs.value == Prior(prev)[|Prior(prev)| - MaxSize + 1..] + [InputEntry(msg, now)]
  {
    ghost var p, e := Prior(prev), InputEntry(msg, now);
    var inputs := prev.inputs.GetOr([]);
    inputs := inputs + [InputEntry(msg, now)];
    next := prev.(inputs := Some(if |inputs| > MaxSize then inputs[|inputs| - MaxSize..] else inputs));
    assert inputs == p + [e] && next.inputs.value == LastN(inputs, MaxSize);
    if |p| >= MaxSize {
      assert inputs[|inputs| - MaxSize..] == p[|p| - MaxSize + 1..] + [e];
    }
  }

  /** The entries after submitting `entries` one after another to a history holding `inputs`. */
  function Replay(inputs: seq<InputEntry>, entries: seq<InputEntry>): seq<InputEntry>
    decreases |entries|
  {
    if entries == [] then inputs
    else Replay(LastN(inputs + [entries[0]], MaxSize), entries[1..])
  }

  /** Any run of submissions leaves exactly the last 50 of all entries ever recorded, in order. */
  lemma {:induction false} ReplayKeepsLast(inputs: seq<InputEntry>, entries: seq<InputEntry>)
    requires |inputs| <= MaxSize
    ensures Replay(inputs, entries) == LastN(inputs + entries, MaxSize)
    decreases |entries|
  {
    if entries == [] {
      assert inputs + entries == inputs;
    } else {
      var w := LastN(inputs + [entries[0]], MaxSize);
      ReplayKeepsLast(w, entries[1..]);
      LastNAppend(inputs + [entries[0]], entries[1..], MaxSize);
      assert inputs + [entries[0]] + entries[1..] == inputs + entries;
    }
  }

  /** 51 submissions to an empty history keep the last 50, the first one evicted. */
  lemma {:induction false} FiftyOneSubmissions(entries: seq<InputEntry>)
    requires |entries| == 51
    ensures Replay([], entries) == entries[1..]
    ensures |Replay([], entries)| == MaxSize
  {
    ReplayKeepsLast([], entries);
    assert [] + entries == entries;
  }

  // ---------------------------------------------------------------------------
  // The outbound message
  // ---------------------------------------------------------------------------

  /** `user?.identifier || 'User'`. */
  function AuthorName(user: Option<User>): (name: string)
    ensures name != []
    ensures user.Some? && user.value.identifier != [] ==> name == user.value.identifier
    ensures user.None? || user.value.identifier == [] ==> name == "User"
  {
    if user.Some? && user.value.identifier != "" then user.value.identifier else "User"
  }

  /** The message built by `onSubmit` and `onReply`; the id and the ISO time are inputs. */
  function NewMessage(id: string, user: Option<User>, msg: string, createdAt: string): (m: Step)
    ensures m.threadId == "" && m.stepType == "user_message"
    ensures m.id == id && m.output == msg && m.createdAt == createdAt && m.steps.None?
    ensures m.name == AuthorName(user)
  {
    Step("", id, AuthorName(user), "user_message", msg, createdAt, None)
  }

  // ---------------------------------------------------------------------------
  // File references
  // ---------------------------------------------------------------------------

  /** `{ id: serverId }` for every attachment whose `serverId` is truthy, in order. */
  function References(attachments: seq<Attachment>): (r: seq<FileRef>)
    ensures |r| <= |attachments|
    ensures forall k :: 0 <= k < |r| ==> r[k].id != ""
  {
    if attachments == [] then []
    else
      var a := attachments[0];
      (if Truthy(a.serverId) then [FileRef(a.serverId.value)] else []) + References(attachments[1..])
  }

  /** `fileReferences` in `onSubmit`: undefined when `attachments` is undefined, the references of the attachments otherwise. */
  function FileReferences(attachments: Option<seq<Attachment>>): (r: Option<seq<FileRef>>)
    ensures r.None? <==> attachments.None?
  {
    match attachments
    case None => None
    case Some(list) => Some(References(list))
  }

  /** References keep the order of the attachments: those of a concatenation are the concatenation. */
  lemma {:induction false} ReferencesAppend(a: seq<Attachment>, b: seq<Attachment>)
    ensures References(a + b) == References(a) + References(b)
  {
    if a == [] {
      assert a + b == b;
    } else {
      assert (a + b)[0] == a[0];
      assert (a + b)[1..] == a[1..] + b;
      ReferencesAppend(a[1..], b);
    }
  }

  /** Every attachment with a truthy `serverId` is referenced; one without contributes nothing. */
  lemma {:induction false} ReferencesComplete(attachments: seq<Attachment>, k: nat)
    requires k < |attachments|
    ensures Truthy(attachments[k].serverId) ==> FileRef(attachments[k].serverId.value) in References(attachments)
    ensures !Truthy(attachments[k].serverId) ==>
      References(attachments) == References(attachments[..k]) + References(attachments[k + 1..])
  {
    var a := attachments;
    assert a == a[..k] + ([a[k]] + a[k + 1..]);
    ReferencesAppend(a[..k], [a[k]] + a[k + 1..]);
    ReferencesAppend([a[k]], a[k + 1..]);
    assert [a[k]][1..] == [];
    assert References([a[k]]) == (if Truthy(a[k].serverId) then [FileRef(a[k].serverId.value)] else []) + [];
  }

  /** Nothing else is referenced: every reference is the truthy `serverId` of one of the attachments. */
  lemma {:induction false} ReferencesSound(attachments: seq<Attachment>, ref: FileRef)
    requires ref in References(attachments)
    ensures exists a :: a in attachments && Truthy(a.serverId) && ref == FileRef(a.serverId.value)
  {
    var a := attachments[0];
    var head := if Truthy(a.serverId) then [FileRef(a.serverId.value)] else [];
    if ref in head {
      assert a in attachments;
    } else {
      assert ref in References(attachments[1..]);
      ReferencesSound(attachments[1..], ref);
      var b :| b in attachments[1..] && Truthy(b.serverId) && ref == FileRef(b.serverId.value);
      assert b in attachments;
    }
  }

  /** The worked example: one uploaded attachment `s1` and one still uploading give `[{id: "s1"}]`. */
  lemma {:induction false} ReferencesExample(done: Attachment, pending: Attachment)
    requires done.serverId == Some("s1")
    requires pending.serverId.None?
    ensures FileReferences(Some([done, pending])) == Some([FileRef("s1")])
  {
    assert [done, pending][1..] == [pending];
    assert [pending][1..] == [];
    assert References([pending]) == [];
    assert Truthy(done.serverId);
    assert References([done, pending]) == [FileRef("s1")] + References([pending]);
    assert [FileRef("s1")] + [] == [FileRef("s1")];
  }

  // ---------------------------------------------------------------------------
  // The component
  // ---------------------------------------------------------------------------

  /** A call into the transport: `sendMessage(message, fileReferences)` or `replyMessage(message)`. */
  datatype Outbound =
    | Sent(message: Step, fileReferences: Option<seq<FileRef>>)
    | Replied(message: Step)

  /**
   * The input box with the state it changes: the input-history atom, the
   * parent's auto-scroll flag and the calls made into the transport, in order.
   */
  class Composer {
    const user: Option<User>
    var history: InputHistory
    var autoScroll: bool
    var outbox: seq<Outbound>

    /**
     * The history holds at most `MAX_SIZE` entries. A history loaded from
     * storage may hold more; the first submission brings it within the bound.
     */
    ghost predicate Valid()
      reads this
    {
      |Prior(history)| <= MaxSize
    }

    constructor (user: Option<User>, history: InputHistory, autoScroll: bool)
      ensures this.user == user && this.history == history && this.autoScroll == autoScroll
      ensures outbox == []
    {
      this.user := user;
      this.history := history;
      this.autoScroll := autoScroll;
      outbox := [];
    }

    /**
     * `onSubmit`, with the id, the ISO time of the message and the
     * epoch time of the history entry given. Nothing is validated: an empty text
     * and no attachments are recorded and sent like any other.
     */
    method OnSubmit(msg: string, attachments: Option<seq<Attachment>>, id: string, isoNow: string, epochNow: int)
      modifies this
      ensures Valid()
      ensures history.open == old(history.open)
      ensures Prior(history) == LastN(Prior(old(history)) + [InputEntry(msg, epochNow)], MaxSize)
      ensures autoScroll
      ensures outbox == old(outbox) + [Sent(NewMessage(id, user, msg, isoNow), FileReferences(attachments))]
    {
      var message := NewMessage(id, user, msg, isoNow);
      history := UpdateInputs(history, msg, epochNow);
      var fileReferences := FileReferences(attachments);
      autoScroll := true;
      outbox := outbox + [Sent(message, fileReferences)];
    }

    /** `onReply`: the same message to the reply primitive; history untouched. */
    method OnReply(msg: string, id: string, isoNow: string)
      modifies this
      ensures history == old(history)
      ensures autoScroll
      ensures outbox == old(outbox) + [Replied(NewMessage(id, user, msg, isoNow))]
    {
      var message := NewMessage(id, user, msg, isoNow);
      outbox := outbox + [Replied(message)];
      autoScroll := true;
    }
  }
}
