/** What the TypeScript client's streams deliver, over server-sent events and over a WebSocket alike. */
module StreamEvents {
  datatype StreamEvent =
    | TextDelta(text: string)
    | ToolCall(payload: string)
    | Done(payload: string)
    | ErrorEvent(message: string)

  predicate Terminal(e: StreamEvent) {
    e.Done? || e.ErrorEvent?
  }
}
