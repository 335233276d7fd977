/** The HTTP replies the handlers send. Rows returned with `res.json(row)` are
    out-parameters of the handler methods; every other reply is a status and one
    of the body shapes below. */
module Http {

  datatype Body =
    | Message(text: string)   // res.json({ message: text })
    | Action(text: string)    // res.json({ action: text })
    | JsonText(text: string)  // res.json(text): a bare JSON string
    | PlainText(text: string) // res.send(text)

  datatype Reply = Reply(status: int, body: Body)

  /** The reply Express sends for `res.json(...)` without an explicit status. */
  function Ok(body: Body): Reply
  {
    Reply(200, body)
  }
}
