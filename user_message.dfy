/**
 * Editing a user message: the message list is cut back to the edited message,
 * whose child steps are cleared, and the new text is handed to the edit
 * primitive. Everything after the edited message is dropped.
 */
module MessageEdit {
  import opened Wrappers
  import opened ChatTypes

  /** `prev.findIndex(m => m.id === id)`: the first position holding `id`, or -1. */
  function FindIndex(prev: seq<Step>, id: string): (r: int)
    ensures -1 <= r < |prev|
    ensures r == -1 <==> forall k :: 0 <= k < |prev| ==> prev[k].id != id
    ensures r >= 0 ==> prev[r].id == id && forall k :: 0 <= k < r ==> prev[k].id != id
  {
    if prev == [] then -1
    else if prev[0].id == id then 0
    else
      var i := FindIndex(prev[1..], id);
      if i == -1 then -1 else i + 1
  }

  /** The edited message with its child steps cleared (`steps = []`). */
  function Cleared(m: Step): Step {
    m.(steps := Some([]))
  }

  /** The list after an edit of `id`, as a value. */
  function Truncated(prev: seq<Step>, id: string): seq<Step> {
    var i := FindIndex(prev, id);
    if i == -1 then prev else prev[..i] + [Cleared(prev[i])]
  }

  /**
   * The updater `handleEdit` passes to `setMessages`: find the message, copy
   * the prefix ending at it, clear the steps of its last element.
   */
  method EditUpdater(prev: seq<Step>, id: string) returns (next: seq<Step>)
    ensures (forall k :: 0 <= k < |prev| ==> prev[k].id != id) ==> next == prev
    ensures (exists k :: 0 <= k < |prev| && prev[k].id == id) ==>
      var i := |next| - 1;
      0 <= i < |prev| && prev[i].id == id && (forall k :: 0 <= k < i ==> prev[k].id != id) &&
      next[..i] == prev[..i] && next[i] == Cleared(prev[i])
    ensures next == Truncated(prev, id)
  {
    var index := FindIndex(prev, id);
    if index == -1 {
      return prev;
    }
    var slice := prev[..index + 1];
    slice := slice[index := slice[index].(steps := Some([]))];
    next := slice;
    assert next == prev[..index] + [Cleared(prev[index])];
  }

  /** The edited message stays where it was and keeps everything but its steps. */
  lemma {:induction false} TruncatedKeepsMessage(prev: seq<Step>, id: string)
    requires FindIndex(prev, id) >= 0
    ensures var r := Truncated(prev, id);
      r != [] && r[|r| - 1].id == id &&
      r[|r| - 1] == prev[|r| - 1].(steps := Some([])) &&
      forall k :: 0 <= k < |r| ==> r[k].id == prev[k].id
  {
    var i := FindIndex(prev, id);
    var r := Truncated(prev, id);
    assert |r| == i + 1;
    forall k | 0 <= k < |r| ensures r[k].id == prev[k].id {
      if k < i {
        assert r[k] == prev[..i][k];
      }
    }
  }

  /** The first occurrence of `id` in the cut list is still its last element. */
  lemma {:induction false} FindIndexTruncated(prev: seq<Step>, id: string)
    ensures FindIndex(Truncated(prev, id), id) == FindIndex(prev, id)
  {
    var i := FindIndex(prev, id);
    if i >= 0 {
      TruncatedKeepsMessage(prev, id);
    }
  }

  /** Submitting the same edit twice leaves the list as one edit does. */
  lemma {:induction false} TruncatedIdempotent(prev: seq<Step>, id: string)
    ensures Truncated(Truncated(prev, id), id) == Truncated(prev, id)
  {
    var i := FindIndex(prev, id);
    if i >= 0 {
      var r := Truncated(prev, id);
      FindIndexTruncated(prev, id);
      assert r[..i] == prev[..i];
      assert Cleared(r[i]) == Cleared(prev[i]);
      assert r[..i] + [Cleared(r[i])] == r;
    }
  }

  /** The list never grows, and it is cut exactly when the id is present. */
  lemma {:induction false} TruncatedLength(prev: seq<Step>, id: string)
    ensures |Truncated(prev, id)| <= |prev|
    ensures |Truncated(prev, id)| == if FindIndex(prev, id) == -1 then |prev| else FindIndex(prev, id) + 1
  {
  }

  /** Editing the second of three messages drops the third and clears the second's steps. */
  lemma {:induction false} TruncatedExample(a: Step, b: Step, c: Step)
    requires a.id == "m1" && b.id == "m2" && c.id == "m3"
    ensures Truncated([a, b, c], "m2") == [a, Cleared(b)]
  {
    assert [a, b, c][1..] == [b, c];
    assert FindIndex([b, c], "m2") == 0;
    assert FindIndex([a, b, c], "m2") == 1;
    assert [a, b, c][..1] == [a];
  }

  /**
   * The user message component: the message-list atom, the editing flag and the
   * calls made into `editMessage`, in order.
   */
  class MessageList {
    var messages: seq<Step>
    var isEditing: bool
    var edits: seq<Step>

    constructor (messages: seq<Step>)
      ensures this.messages == messages && !isEditing && edits == []
    {
      this.messages := messages;
      isEditing := false;
      edits := [];
    }

    /**
     * `handleEdit` for `message`, with `field` the value of the
     * mounted text field, or `None` when the field is not mounted, in which case
     * nothing happens.
     */
    method HandleEdit(message: Step, field: Option<string>)
      modifies this
      ensures field.None? ==> messages == old(messages) && isEditing == old(isEditing) && edits == old(edits)
      ensures field.Some? ==>
        messages == Truncated(old(messages), message.id) && !isEditing &&
        edits == old(edits) + [message.(output := field.value)]
    {
      if field.Some? {
        var newOutput := field.value;
        messages := EditUpdater(messages, message.id);
        isEditing := false;
        edits := edits + [message.(output := newOutput)];
      }
    }
  }
}
