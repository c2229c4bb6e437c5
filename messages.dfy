/** The channel messages the scraper reads, as the chat platform returns them. */
module Messages {

  /** A message identifier (a snowflake); larger means newer. */
  type Id = nat

  /** A message: its identifier, its text body and the URLs of its
      attachments, in the order the platform lists them. */
  datatype Message = Message(id: Id, content: string, attachments: seq<string>)

  /** The platform's ordering guarantee: a channel history listed newest
      first has strictly decreasing identifiers. */
  predicate NewestFirst(channel: seq<Message>) {
    forall i, j :: 0 <= i < j < |channel| ==> channel[i].id > channel[j].id
  }
}
