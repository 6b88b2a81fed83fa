# Chat front end core, modelled in Dafny

This project models four pieces of logic from the chainlit chat front end and its copilot widget:

- **The streaming-cursor Markdown plugin** (`cursor_plugin.dfy`). The stream producer marks the live typing cursor with U+200B ZERO WIDTH SPACE. For every text node, the plugin cuts the value at each marker. It then replaces the node, in its parent's children, by the text pieces, with one `blinkingCursor` node per marker.
  - The reference meaning is `Segments`, defined one character at a time. It has an inverse, `Unsegment`, which reads a cursor back as a marker.
  - The source's loop over the `matchAll` results is the method `SplitOnCursor`, proved equal to `Segments`.
  - The splice into the parent is the method `ParentNode.VisitText`.
- **The chat input box** (`input_box.dfy`). On submit it builds the outbound user message and records the text in the input history. The history is bounded at 50 entries, newest last, oldest evicted first. It then hands the message to the transport, with references to the attachments that have a server id. On reply it builds the same message and uses the reply primitive. The history is not touched.
- **The attachment list of the copilot chat** (`attachments.dfy`). Selecting files appends one pending attachment per file, each under a fresh client id. Later events replace the whole list through a keyed map or a keyed filter:
  - progress;
  - success, which brings the server id;
  - failure;
  - cancel;
  - remove.

  The upload limits (`fileSpec`) default to 500 MB, 20 files and any type. The list invariant is preserved by every event:
  - ids are distinct;
  - a server id is present exactly for uploaded entries;
  - an uploaded entry cannot be cancelled.
- **Editing a user message** (`user_message.dfy`). The message list is cut back to the first message with the edited id, and that message's child steps are cleared. The new text goes to the edit primitive. If the id is absent, the list is unchanged.

`wrappers.dfy` holds `Option`. `chat_types.dfy` holds the records shared by these parts: `IStep`, `IAttachment`, the user and a file reference.

The following are parameters of the methods, never computed:
- the ids drawn by `uuidv4`;
- the times read from `Date`;
- the value of the mounted edit field.

Calls into the transport (`sendMessage`, `replyMessage`, `editMessage`) are recorded as appended entries of a sequence field. The attachment list keeps `toast` notifications and `xhr.abort` calls in one ordered log of effects. The model does not perform them. The file name each upload closure captures is kept in a map from attachment id to name, filled when the files are enqueued.

## Model

| member | source | states |
|---|---|---|
| CursorPlugin.SplitOnCursor | frontend/src/components/molecules/Markdown.tsx:41-76 | the value is split exactly when it contains a marker, and then the emitted nodes are `Segments(value)`: text pieces between markers, in order, one cursor per marker |
| CursorPlugin.VisitMatch | frontend/src/components/molecules/Markdown.tsx:49-68 | the callback appends the piece since the previous match, only if non-empty, then one cursor, and moves past the one-character marker |
| CursorPlugin.MatchesIffSentinel | frontend/src/components/molecules/Markdown.tsx:42-44 | there is at least one match exactly when the value holds a marker |
| CursorPlugin.LoopStep | frontend/src/components/molecules/Markdown.tsx:48-69 | one round of the `forEach`: the next match is the next marker after `lastIndex`, and the nodes pushed so far plus the segments of the rest are the segments of the whole value |
| CursorPlugin.SentinelIndices | frontend/src/components/molecules/Markdown.tsx:41-42 | every index `matchAll` yields from `from` on is a marker position at or after `from` |
| CursorPlugin.SentinelIndicesComplete | frontend/src/components/molecules/Markdown.tsx:41-42 | every marker position at or after `from` is among the matches (the regular expression is global) |
| CursorPlugin.SentinelIndicesHead | frontend/src/components/molecules/Markdown.tsx:42-48 | the first match is the first marker, nothing before it is a marker, and the remaining matches are those after it |
| CursorPlugin.SegmentsAfterLastMatch | frontend/src/components/molecules/Markdown.tsx:71-76 | after the last match the rest of the value is one text node, or nothing when it is empty |
| CursorPlugin.SegmentsPlain | frontend/src/components/molecules/Markdown.tsx:44 | a value without a marker is a single text node (or none if empty), so the tree is left as it is |
| CursorPlugin.SegmentsAround | frontend/src/components/molecules/Markdown.tsx:53-68 | cutting at any marker gives the nodes of the left side, one cursor, then the nodes of the right side |
| CursorPlugin.AdjacentSentinels | frontend/src/components/molecules/Markdown.tsx:53-66 | two adjacent markers give two consecutive cursors with no text node between them |
| CursorPlugin.EdgeSentinels | frontend/src/components/molecules/Markdown.tsx:53-75 | a leading marker yields a leading cursor and a trailing one a trailing cursor, with no empty text node |
| CursorPlugin.UnsegmentSegments | frontend/src/components/molecules/Markdown.tsx:48-76 | reading the nodes back, with cursors as markers, gives the original value: the split loses nothing |
| CursorPlugin.SegmentsCanonical | frontend/src/components/molecules/Markdown.tsx:53-75 | the emitted nodes are only text and cursors, every text non-empty and marker-free, never two texts side by side |
| CursorPlugin.CanonicalAt | frontend/src/components/molecules/Markdown.tsx:53-75 | the same shape stated for the node at any index |
| CursorPlugin.SegmentsUnsegment | frontend/src/components/molecules/Markdown.tsx:48-76 | every node sequence of that shape is the split of exactly one value, its reading |
| CursorPlugin.SegmentsText | frontend/src/components/molecules/Markdown.tsx:48-76 | the concatenated text values equal the original value with every marker removed |
| CursorPlugin.SegmentsCursors | frontend/src/components/molecules/Markdown.tsx:42-69 | the number of cursor nodes equals the number of markers in the value |
| CursorPlugin.SegmentsExamples | frontend/src/components/molecules/Markdown.tsx:48-76 | `hello`, `a`+marker+`b`, marker+`b` and `a`+two markers+`b` give the expected node sequences |
| CursorPlugin.ApplyCursorSiblings | frontend/src/components/molecules/Markdown.tsx:78 | the splice replaces only the visited child: the siblings before and after it are unchanged and in order |
| CursorPlugin.ApplyCursorPreservesText | frontend/src/components/molecules/Markdown.tsx:78 | the children read back, with cursors as markers, are the same text before and after the visit |
| CursorPlugin.RevisitUnchanged | frontend/src/components/molecules/Markdown.tsx:40-78 | a later visit of a text node the splice inserted changes nothing |
| CursorPlugin.ParentNode.VisitText | frontend/src/components/molecules/Markdown.tsx:40-79 | the parent's children become the children with the visited text node replaced by its segments, or stay as they were when it has no marker |
| InputBox.LastN | frontend/src/components/organisms/chat/inputBox/index.tsx:67-69 | the kept entries are the last `min(length, n)` entries, in order |
| InputBox.LastNAppend | frontend/src/components/organisms/chat/inputBox/index.tsx:67-68 | keeping the last `n` after every push equals keeping the last `n` of everything, so eviction is oldest first |
| InputBox.UpdateInputs | frontend/src/components/organisms/chat/inputBox/index.tsx:56-71 | other fields of the history are kept; at most 50 entries; the new entry is last; below the cap it is old entries plus the new one, at the cap the oldest is dropped; undefined entries count as empty |
| InputBox.ReplayKeepsLast | frontend/src/components/organisms/chat/inputBox/index.tsx:56-71 | any run of submissions leaves exactly the last 50 of all entries ever recorded, in order |
| InputBox.FiftyOneSubmissions | frontend/src/components/organisms/chat/inputBox/index.tsx:57-69 | 51 submissions to an empty history keep 50 entries, the first one evicted |
| InputBox.AuthorName | frontend/src/components/organisms/chat/inputBox/index.tsx:50 | the author is the user's identifier when it is non-empty, otherwise `User`; never empty |
| InputBox.NewMessage | frontend/src/components/organisms/chat/inputBox/index.tsx:47-54 | the message has an empty thread id, type `user_message`, the text as output, the given id and time and no steps |
| InputBox.References | frontend/src/components/organisms/chat/inputBox/index.tsx:73-75 | no more references than attachments, and no reference has an empty id |
| InputBox.FileReferences | frontend/src/components/organisms/chat/inputBox/index.tsx:73-75 | undefined exactly when the attachments are undefined |
| InputBox.ReferencesAppend | frontend/src/components/organisms/chat/inputBox/index.tsx:74-75 | the references of a concatenation are the concatenation of the references, so the order is kept |
| InputBox.ReferencesComplete | frontend/src/components/organisms/chat/inputBox/index.tsx:74-75 | every attachment with a truthy server id is referenced; one without contributes nothing |
| InputBox.ReferencesSound | frontend/src/components/organisms/chat/inputBox/index.tsx:74-75 | every reference is the truthy server id of some attachment |
| InputBox.ReferencesExample | frontend/src/components/organisms/chat/inputBox/index.tsx:73-75 | one attachment with server id `s1` and one still uploading give exactly `[{id: "s1"}]` |
| InputBox.Composer.OnSubmit | frontend/src/components/organisms/chat/inputBox/index.tsx:45-81 | the history gets the new entry under the cap, whatever the text and attachments; auto-scroll is on; one send of the built message with its file references is recorded |
| InputBox.Composer.OnReply | frontend/src/components/organisms/chat/inputBox/index.tsx:83-98 | the history is unchanged; auto-scroll is on; one reply with the built message is recorded |
| Attachments.OrNumber | libs/copilot/src/chat/body.tsx:60-63 | a configured number is used unless it is absent or 0, in which case the default is used |
| Attachments.FileSpecOf | libs/copilot/src/chat/body.tsx:58-69 | without settings the limits are 500 MB, 20 files, `*/*`; configured numbers apply unless 0; a configured accept list always applies; the limits are never 0 |
| Attachments.NewAttachment | libs/copilot/src/chat/body.tsx:123-141 | a new attachment has the drawn id, the file's name, size and type, progress 0, no server id, not uploaded, cancellable |
| Attachments.Patched | libs/copilot/src/chat/body.tsx:86-110 | a keyed update never changes an entry's id, name, size or type |
| Attachments.Updated | libs/copilot/src/chat/body.tsx:84-94 | the keyed map keeps the length and changes exactly the entries with the id, leaving the others as they were |
| Attachments.Without | libs/copilot/src/chat/body.tsx:118-120 | the filter never lengthens the list |
| Attachments.WithoutMembers | libs/copilot/src/chat/body.tsx:118-120 | an entry is in the filtered list exactly when it was in the list and its id differs |
| Attachments.WithoutAppend | libs/copilot/src/chat/body.tsx:118-120 | filtering a concatenation is concatenating the filters, so the remaining entries keep their order |
| Attachments.WithoutAbsent | libs/copilot/src/chat/body.tsx:137-139 | removing an id that is not there changes nothing |
| Attachments.WithoutRemovesId | libs/copilot/src/chat/body.tsx:132-134 | after a cancel or remove, no entry has the id |
| Attachments.WithoutTwice | libs/copilot/src/chat/body.tsx:132-139 | a second cancel or remove of the same id leaves the list as the first one did |
| Attachments.UpdatedAbsent | libs/copilot/src/chat/body.tsx:84-94 | a progress or success update for an absent id is a no-op |
| Attachments.UnknownIdIgnored | libs/copilot/src/chat/body.tsx:84-139 | any event for an id not in the list leaves the list as it is |
| Attachments.LateEventIgnored | libs/copilot/src/chat/body.tsx:84-139 | after a failure, cancel or remove of an id, every later event for that id is discarded |
| Attachments.UpdatedCommute | libs/copilot/src/chat/body.tsx:84-114 | keyed updates of two different attachments commute |
| Attachments.WithoutCommute | libs/copilot/src/chat/body.tsx:118-139 | removals of two ids commute |
| Attachments.UpdatedWithoutCommute | libs/copilot/src/chat/body.tsx:84-139 | a keyed update of one attachment and the removal of another commute |
| Attachments.EventsCommute | libs/copilot/src/chat/body.tsx:84-139 | events for different attachments may arrive in either order with the same resulting list |
| Attachments.WithoutDistinct | libs/copilot/src/chat/body.tsx:118-120 | removal keeps the ids distinct |
| Attachments.ApplyWellFormed | libs/copilot/src/chat/body.tsx:84-139 | every event keeps the ids distinct, the server id present exactly for uploaded entries, and no uploaded entry cancellable |
| Attachments.ApplyLength | libs/copilot/src/chat/body.tsx:84-139 | no event lengthens the list; progress and success keep its length |
| Attachments.EnqueueWellFormed | libs/copilot/src/chat/body.tsx:123-143 | appending attachments under fresh, distinct ids keeps the list well formed |
| Attachments.EnqueueAppends | libs/copilot/src/chat/body.tsx:123-143 | enqueueing adds exactly one entry per file, after all existing ones, in file order, with progress 0 and the file's name, size and type |
| Attachments.RecordedLookup | libs/copilot/src/chat/body.tsx:77-78 | for distinct ids, the recorded map has exactly the new ids as keys and maps each id to the name of the file it was drawn for |
| Attachments.RecordedStep | libs/copilot/src/chat/body.tsx:77-78 | recording one more file extends the map by that file's id and name |
| Attachments.ApplyNamed | libs/copilot/src/chat/body.tsx:84-139 | no event breaks the agreement between each listed entry's name and the name recorded for its id |
| Attachments.EnqueueNamed | libs/copilot/src/chat/body.tsx:77-143 | after enqueueing under fresh, distinct ids, every listed entry's name is the one recorded for its id |
| Attachments.AttachmentList.OnFileUpload | libs/copilot/src/chat/body.tsx:75-146 | the list becomes the old list followed by the new pending attachments; each new id is recorded with its file's name; the invariant holds; no effect is raised |
| Attachments.AttachmentList.OnProgress | libs/copilot/src/chat/body.tsx:83-95 | the list is the keyed progress update of the old one; the invariant holds |
| Attachments.AttachmentList.OnUploaded | libs/copilot/src/chat/body.tsx:99-115 | the matching entry gets the server id, uploaded, progress 100 and no cancel; the invariant holds |
| Attachments.AttachmentList.OnUploadFailed | libs/copilot/src/chat/body.tsx:116-121 | exactly one effect is logged, an error toast with the name recorded for the id and the error message; the entry is dropped |
| Attachments.AttachmentList.Cancel | libs/copilot/src/chat/body.tsx:129-135 | exactly two effects are logged, in this order: an info toast with the name recorded for the id, then the abort of that id; the entry is dropped |
| Attachments.AttachmentList.Remove | libs/copilot/src/chat/body.tsx:136-140 | the entry is dropped, with no toast and no abort |
| MessageEdit.FindIndex | frontend/src/components/molecules/messages/UserMessage.tsx:45 | -1 exactly when no message has the id, otherwise the first position holding it |
| MessageEdit.EditUpdater | frontend/src/components/molecules/messages/UserMessage.tsx:44-52 | an absent id returns the list unchanged; otherwise the result ends at the first message with the id, keeps every earlier message, and ends with that message with its steps cleared |
| MessageEdit.TruncatedKeepsMessage | frontend/src/components/molecules/messages/UserMessage.tsx:49-50 | after an edit the last message is the edited one, in its old place, with only its steps changed, and every kept message keeps its id |
| MessageEdit.FindIndexTruncated | frontend/src/components/molecules/messages/UserMessage.tsx:45-50 | in the cut list the edited message is found at the same position |
| MessageEdit.TruncatedIdempotent | frontend/src/components/molecules/messages/UserMessage.tsx:44-52 | submitting the same edit twice gives the list one edit gives |
| MessageEdit.TruncatedLength | frontend/src/components/molecules/messages/UserMessage.tsx:45-49 | the list never grows: it keeps its length when the id is absent and has length index + 1 otherwise |
| MessageEdit.TruncatedExample | frontend/src/components/molecules/messages/UserMessage.tsx:44-52 | editing the second of three messages leaves the first and the cleared second |
| MessageEdit.MessageList.HandleEdit | frontend/src/components/molecules/messages/UserMessage.tsx:41-56 | without a mounted field nothing changes; otherwise the list is cut at the edited message, editing is switched off and one edit with the new output is recorded |

## Left out

- The Markdown pipeline outside the plugin is not modelled: remark/rehype, the node renderers, and the Vega and Mermaid dispatch in `pre`. It is library behaviour.
- The order in which `unist-util-visit` walks the tree is not modelled. `VisitText` is one visit of one text node. `RevisitUnchanged` shows that a visit of a node the splice inserted changes nothing.
- CursorPlugin.ParentNode.VisitText requires the child at `index` to be a text node with a string value. The visitor is only called for `text` nodes. An undefined `value`, which the source handles with `|| []`, is not represented.
- Positions are character positions of `seq<char>`. JavaScript strings are UTF-16; U+200B is one code unit, so the two agree on the marker. Surrogate pairs are not modelled.
- The match length is fixed at one, the length of the one-character pattern.
- The upload transport is not modelled: `uploadFile`, the promise and when its callbacks fire. Progress, success and failure are events that may arrive in any order, and `EventsCommute` and `LateEventIgnored` state what that order does to the list. The transport is not modelled beyond recording which ids were aborted.
- Attachment capabilities are reduced to data:
  - the `cancel` closure is the flag `cancellable`, which is cleared on success like the source's `cancel: undefined`;
  - `remove` is always present on an attachment, so it is not a field.
- toast, `sendMessage`, `replyMessage` and `editMessage` are recorded, not performed. A toast is recorded only as its kind and its text.
- Attachments.AttachmentList.Cancel may be called for an id no longer in the list. It still raises the toast and aborts, as the closure in the source does. Only the list update is a no-op.
- Attachments.AttachmentList.Cancel does not consult `cancellable`. The source clears `cancel` on success, so the UI no longer offers it. A closure captured before the success still toasts, aborts and drops the uploaded entry, and the model does the same. This differs from the described behaviour, where a cancel after success does nothing.
- Attachments.OrNumber treats numbers as integers. NaN, which is also falsy in JavaScript, is not represented.
- InputBox.Composer.OnSubmit filters file references on a truthy `serverId`, as the code does. It does not filter on `uploaded`. Under the attachment invariant the two agree, except for a server id that is the empty string.
- The input-history atom has other fields, which are represented by one field, `open`. The history store's own module is not part of this model.
- MessageEdit.EditUpdater works on values. In the source, `slice` is a shallow copy, so clearing `steps` on its last element also changes that element in the previous list. Aliasing is not modelled. In particular, MessageEdit.MessageList.HandleEdit records the edited message with its own steps. When the `message` prop is the same object as the list entry, the source hands `editMessage` a message with `steps: []`.
- The `useEffect` that chooses the layout of a user message is not modelled, nor any JSX, styling or layout. They are presentational.
- The `submitProxy` indirection in the copilot body is not modelled. It depends on hooks outside this model.
- Not part of this model: the copilot app shell, the popover, the favourite and header buttons, the new-chat button and the front-end app wrapper. They are I/O, glue or presentation.
