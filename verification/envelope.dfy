/**
 * What one incoming message envelope `{receiver, text, file}` causes (index.js:188-225),
 * with JSON parsing already done: the attachment write, the persisted message record,
 * and the payload delivered to the receiver's connections.
 */
module Envelope {
  import opened Wrappers
  import opened Text
  import opened Attachment

  /** The `file` field: the original file name and its data URI. */
  datatype FileField = FileField(name: string, data: string)

  /** A parsed envelope; an absent field is `None`. */
  datatype Envelope = Envelope(receiver: Option<string>, text: Option<string>, file: Option<FileField>)

  /** `fs.writeFile(static/<key>, content)` */
  datatype FileWrite = FileWrite(key: string, content: string)

  /** The document given to `Message.create`. */
  datatype Record = Record(sender: Option<string>, receiver: string, text: Option<string>, file: Option<string>)

  /** The payload pushed to each receiving connection. */
  datatype Delivery = Delivery(text: Option<string>, sender: Option<string>, receiver: string, id: string, file: Option<string>)

  /** The side effects of one envelope before delivery: the file write and the persisted record. */
  datatype Effects = Effects(write: Option<FileWrite>, record: Option<Record>)

  /** JavaScript truthiness of an optional string: present and non-empty. */
  predicate Truthy(s: Option<string>)
  {
    s.Some? && s.value != ""
  }

  /** `receiver && (text || file)` (index.js:208) */
  predicate Accepted(env: Envelope)
  {
    Truthy(env.receiver) && (Truthy(env.text) || env.file.Some?)
  }

  /**
   * The attachment's data has no comma, so `split(',')[1]` is `undefined`, which
   * `fs.writeFile` refuses by throwing: the handler stops before anything is persisted.
   */
  predicate WriteThrows(env: Envelope)
  {
    env.file.Some? && ',' !in env.file.value.data
  }

  /**
   * The effects of an envelope sent at time `now` over a connection whose bound user is
   * `sender`. The attachment is written whenever a file with a payload segment is sent,
   * whether or not the envelope is then accepted; the record exists exactly when the
   * envelope is accepted and the write did not throw, carries the sender, receiver and
   * text unchanged, and names the written key exactly when a file was sent.
   */
  function Process(sender: Option<string>, env: Envelope, now: nat): (e: Effects)
    ensures e.write.Some? <==> env.file.Some? && ',' in env.file.value.data
    ensures e.write.Some? ==>
      && Split(e.write.value.key, '.') == [Decimal(now), Extension(env.file.value.name)]
      && Some(e.write.value.content) == FileContent(env.file.value.data)
    ensures e.record.Some? <==> Accepted(env) && !WriteThrows(env)
    ensures e.record.Some? ==>
      && e.record.value.sender == sender
      && Some(e.record.value.receiver) == env.receiver
      && e.record.value.text == env.text
      && (e.record.value.file.Some? <==> env.file.Some?)
    ensures e.record.Some? && e.write.Some? ==> e.record.value.file == Some(e.write.value.key)
  {
    if WriteThrows(env) then Effects(None, None)
    else
      var key := if env.file.Some? then Some(AttachmentKey(now, env.file.value.name)) else None;
      var write := if env.file.Some? then Some(FileWrite(key.value, FileContent(env.file.value.data).value)) else None;
      var record := if Accepted(env) then Some(Record(sender, env.receiver.value, env.text, key)) else None;
      Effects(write, record)
  }

  /** `{text, sender, receiver, _id, file}` for a persisted record with database id `id`. */
  function DeliveryOf(record: Record, id: string): (d: Delivery)
    ensures d.id == id
    ensures d.text == record.text && d.sender == record.sender && d.receiver == record.receiver
    ensures d.file == record.file
  {
    Delivery(record.text, record.sender, record.receiver, id, record.file)
  }

  /** A text-only envelope to a receiver is persisted as is and writes nothing. */
  lemma TextOnlyPersisted(sender: Option<string>, receiver: string, text: string, now: nat)
    requires receiver != "" && text != ""
    ensures Process(sender, Envelope(Some(receiver), Some(text), None), now)
            == Effects(None, Some(Record(sender, receiver, Some(text), None)))
  {
  }

  /** A file-only envelope to a receiver is written and persisted under the generated key. */
  lemma FileOnlyPersisted(sender: Option<string>, receiver: string, file: FileField, now: nat)
    requires receiver != "" && ',' in file.data
    ensures var e := Process(sender, Envelope(Some(receiver), None, Some(file)), now);
      && e.write == Some(FileWrite(AttachmentKey(now, file.name), FileContent(file.data).value))
      && e.record == Some(Record(sender, receiver, None, Some(AttachmentKey(now, file.name))))
  {
  }

  /** An envelope with neither text nor file is dropped without any effect. */
  lemma EmptyEnvelopeDropped(sender: Option<string>, receiver: Option<string>, text: Option<string>, now: nat)
    requires !Truthy(text)
    ensures Process(sender, Envelope(receiver, text, None), now) == Effects(None, None)
  {
  }

  /** A file sent with no receiver is still written, but nothing is persisted. */
  lemma FileWithoutReceiverWrittenOnly(sender: Option<string>, receiver: Option<string>, text: Option<string>, file: FileField, now: nat)
    requires !Truthy(receiver) && ',' in file.data
    ensures var e := Process(sender, Envelope(receiver, text, Some(file)), now);
      e.write.Some? && e.record.None?
  {
  }
}
