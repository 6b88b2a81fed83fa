/**
 * The record types the chat client passes around: a message step (`IStep`),
 * an attachment of the draft (`IAttachment`), the signed-in user and a file reference.
 * Only the fields the modelled code reads or writes are kept.
 */
module ChatTypes {
  import opened Wrappers

  /** The authenticated user; `identifier` may be the empty string. */
  datatype User = User(identifier: string)

  /** A chat step (`IStep`); `steps` holds the nested steps and is absent on a fresh message. */
  datatype Step = Step(
    threadId: string,
    id: string,
    name: string,
    stepType: string,
    output: string,
    createdAt: string,
    steps: Option<seq<Step>>)

  /**
   * An attachment of the draft message (`IAttachment`). `cancellable` stands for the
   * `cancel` closure being present; the `remove` closure is always present and is not a field.
   */
  datatype Attachment = Attachment(
    id: string,
    mimeType: string,
    name: string,
    size: nat,
    uploadProgress: int,
    serverId: Option<string>,
    uploaded: bool,
    cancellable: bool)

  /** `{ id: serverId }`, as handed to the transport with a message. */
  datatype FileRef = FileRef(id: string)

  /** JavaScript truthiness of an optional string: present and not empty. */
  predicate Truthy(s: Option<string>) {
    s.Some? && s.value != ""
  }
}
