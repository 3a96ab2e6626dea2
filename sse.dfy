/** The client side of a `text/event-stream` response, as section 9.2.5
    ("Parsing an event stream") of the WHATWG HTML Living Standard describes
    it, restricted to what the reload stream needs: lines end with LF,
    comment lines start with `:`, the `data` field appends to the data
    buffer, and a blank line dispatches a `message` event when the buffer is
    not empty. This is the reference the server's frames are checked
    against. */
module Sse {
  import opened Wrappers
  import opened Strings

  /** The parser's state: the line read so far, the data buffer and the data
      of every `message` event dispatched so far. */
  datatype Parser = Parser(line: string, data: string, messages: seq<string>)

  /** A parser between frames, having dispatched `messages`. */
  function Idle(messages: seq<string>): (r: Parser) {
    Parser("", "", messages)
  }

  /** A field value loses one leading space. */
  function FieldValue(s: string): (r: string) {
    if |s| > 0 && s[0] == ' ' then s[1..] else s
  }

  function ProcessField(p: Parser, field: string, value: string): (r: Parser) {
    if field == "data" then p.(data := p.data + value + "\n") else p
  }

  /** What a complete line does to the parser. */
  function ProcessLine(p: Parser, line: string): (r: Parser) {
    if line == "" then
      if p.data == "" then p
      else
        var data := if p.data[|p.data| - 1] == '\n' then p.data[..|p.data| - 1] else p.data;
        p.(data := "", messages := p.messages + [data])
    else if line[0] == ':' then p
    else match FirstIndexOf(line, ':')
      case Some(i) => ProcessField(p, line[..i], FieldValue(line[i + 1..]))
      case None => ProcessField(p, line, "")
  }

  function Consume(p: Parser, c: char): (r: Parser) {
    if c == '\n' then ProcessLine(p.(line := ""), p.line)
    else p.(line := p.line + [c])
  }

  /** Feeds the characters of `s` to the parser, in order. */
  function Feed(p: Parser, s: string): (r: Parser)
    decreases |s|
  {
    if s == [] then p else Feed(Consume(p, s[0]), s[1..])
  }

  /** Feeding two pieces one after the other is feeding their concatenation:
      the parser does not care where the transport splits the stream. */
  lemma {:induction false} FeedConcat(p: Parser, a: string, b: string)
    ensures Feed(p, a + b) == Feed(Feed(p, a), b)
    decreases |a|
  {
    if a != [] {
      assert (a + b)[0] == a[0];
      assert (a + b)[1..] == a[1..] + b;
      FeedConcat(Consume(p, a[0]), a[1..], b);
    } else {
      assert a + b == b;
    }
  }
}
