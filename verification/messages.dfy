/** The records the archive pipeline reads from the upstream message API. */
module Messages {
  import opened Wrappers

  type byte = x: int | 0 <= x < 256

  datatype Author = Author(username: string, discriminator: string)

  /** An attachment reference: its remote URL and the file name it is stored under. */
  datatype Attachment = Attachment(url: string, filename: string)

  /** One upstream message. `content` is `None` when the field is absent or null;
      `attachments` is `None` when the field is not an array. */
  datatype Message = Message(
    id: string,
    author: Author,
    content: Option<string>,
    timestamp: string,
    attachments: Option<seq<Attachment>>)

  /** A downloaded attachment: the name it was declared under and the bytes received. */
  datatype File = File(name: string, data: seq<byte>)
}
