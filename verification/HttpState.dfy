/** The parser object of http.c. */
module HttpState {
  import opened Bytes
  import opened HttpSpec

  class Parser {
    const cfg: Config
    var progress: Progress
    var contentLoaded: nat
    var message: Message
    ghost var calls: seq<Event>

    function State(): HttpSpec.State
      reads this
    {
      HttpSpec.State.State(progress, contentLoaded, message)
    }

    /** fdu_init_http_request_parser, in memory that held something before. */
    constructor (cfg: Config, client: Client, memory: TypeBuffer)
      ensures this.cfg == cfg && State() == Start(client, memory) && calls == []
    {
      this.cfg := cfg;
      progress, contentLoaded := RequestLine, 0;
      message := Message(NoMethod, NoVersion, true, 0, memory[0 := NUL], client);
      calls := [];
    }

    /** fdu_clear_http_request_parser. */
    method Clear()
      modifies `progress, `contentLoaded, `message
      ensures State() == Start(old(message.client), old(message.contentType))
    {
      progress := RequestLine;
      contentLoaded := 0;
      message := Message(NoMethod, NoVersion, true, 0, message.contentType[0 := NUL], message.client);
    }

    /** A callback. */
    method Call(e: Event) returns (accepted: bool)
      modifies `calls, `message
      ensures accepted == cfg.accept(old(message.client), e) && calls == old(calls) + [e]
      ensures message == old(message).(client := cfg.remember(old(message.client), e))
    {
      calls := calls + [e];
      accepted := cfg.accept(message.client, e);
      message := message.(client := cfg.remember(message.client, e));
    }
  }
}
