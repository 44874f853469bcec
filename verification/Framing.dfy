/** Streams of requests: draining a buffer, and feeding a stream in arbitrary chunks. */
module Framing {
  import opened Bytes
  import opened CommandParser
  import opened ParserTheory

  // ---------------------------------------------------------------- requests

  /** What a client sends: a multibulk frame, a line of text, or a line without any word in it. */
  datatype Item = Frame(cmd: Command) | Line(text: Bytes) | Blank(text: Bytes)

  function Wire(item: Item): Bytes {
    match item
    case Frame(cmd) => FrameOf(cmd)
    case Line(text) => text + [LF]
    case Blank(text) => text + [LF]
  }

  /** The command it stands for, if any. */
  function CommandOf(item: Item): seq<Command> {
    match item
    case Frame(cmd) => [cmd]
    case Line(text) => [Tokens(StripCr(text))]
    case Blank(_) => []
  }

  /** A line that does not look like a frame. */
  predicate PlainLine(text: Bytes) {
    LF !in text && (text != [] ==> text[0] != STAR)
  }

  predicate ValidItem(item: Item) {
    match item
    case Frame(cmd) => WithinLimits(cmd)
    case Line(text) => PlainLine(text) && Tokens(StripCr(text)) != []
    case Blank(text) => PlainLine(text) && Tokens(StripCr(text)) == []
  }

  /** A line that the parser would wait for, however slowly it comes. */
  predicate Short(item: Item) {
    item.Frame? || |item.text| <= MAX_BULK_LEN
  }

  type Message = item: Item | ValidItem(item) witness Frame([[]])
  type Request = item: Item | ValidItem(item) && Short(item) witness Frame([[]])

  function Stream(items: seq<Item>): Bytes {
    if items == [] then [] else Wire(items[0]) + Stream(items[1..])
  }

  function Commands(items: seq<Item>): seq<Command> {
    if items == [] then [] else CommandOf(items[0]) + Commands(items[1..])
  }

  /** No frame stands directly behind a blank line. */
  predicate Clean(items: seq<Item>) {
    forall i | 0 < i < |items| && items[i].Frame? :: !items[i - 1].Blank?
  }

  /** What follows these items cannot be taken for text that a blank line lets in. */
  predicate Separate(items: seq<Item>, tail: Bytes) {
    items != [] && items[|items| - 1].Blank? && tail != [] ==> tail[0] != STAR
  }

  lemma {:induction false} FindLfIs(s: Bytes, pos: nat, e: nat)
    requires pos <= e < |s| && s[e] == LF && forall j | pos <= j < e :: s[j] != LF
    ensures FindLf(s, pos) == Some(e)
    decreases e - pos
  {
    if pos < e { FindLfIs(s, pos + 1, e); }
  }

  lemma {:induction false} FindLfNone(s: Bytes, pos: nat)
    requires pos <= |s| && forall j | pos <= j < |s| :: s[j] != LF
    ensures FindLf(s, pos) == None
    decreases |s| - pos
  {
    if pos < |s| { FindLfNone(s, pos + 1); }
  }

  lemma LineAt(text: Bytes, rest: Bytes)
    requires LF !in text
    ensures FindLf(text + [LF] + rest, 0) == Some(|text|)
    ensures (text + [LF] + rest)[..|text|] == text && (text + [LF] + rest)[|text| + 1..] == rest
  {
    FindLfIs(text + [LF] + rest, 0, |text|);
  }

  /** A request at the front of the buffer is read as its command, and only its bytes are consumed. */
  lemma RequestReads(item: Message, rest: Bytes)
    requires !item.Blank?
    ensures ParseCommand(Wire(item) + rest) == Complete(CommandOf(item)[0], rest)
  {
    match item
    case Frame(cmd) => FrameReads(cmd, rest);
    case Line(text) =>
      LineAt(text, rest);
      if text != [] { assert (text + [LF] + rest)[0] == text[0]; }
  }

  /** A blank line is skipped, and what follows it is read as text. */
  lemma BlankReads(text: Bytes, rest: Bytes)
    requires PlainLine(text) && Tokens(StripCr(text)) == []
    ensures ParseCommand(text + [LF] + rest) == ParseInline(rest)
  {
    LineAt(text, rest);
    if text != [] { assert (text + [LF] + rest)[0] == text[0]; }
  }

  /** Part of a request is incomplete, and stays in the buffer untouched. */
  lemma TornRequest(item: Request, k: nat)
    requires k < |Wire(item)|
    ensures ParseCommand(Wire(item)[..k]) == Incomplete(Wire(item)[..k])
  {
    match item
    case Frame(cmd) => TornFrame(cmd, k);
    case _ =>
      var s := Wire(item)[..k];
      assert s == item.text[..k];
      FindLfNone(s, 0);
      if s != [] { assert s[0] == item.text[0]; }
  }

  // ---------------------------------------------------------------- draining

  datatype Drained = Drained(commands: seq<Command>, rest: Bytes, failed: bool)

  /** Takes commands off the buffer until it holds no complete one. */
  function Drain(buf: Bytes): Drained
    decreases |buf|
  {
    match ParseCommand(buf)
    case Incomplete(rest) => Drained([], rest, false)
    case ProtocolError(_, rest) => Drained([], rest, true)
    case Complete(args, rest) => var d := Drain(rest); d.(commands := [args] + d.commands)
  }

  /** Feeds the chunks in turn, draining after each, until a protocol error. */
  function FeedAll(buf: Bytes, chunks: seq<Bytes>): Drained
    decreases |chunks|
  {
    if chunks == [] then Drained([], buf, false)
    else
      var d := Drain(buf + chunks[0]);
      if d.failed then d
      else
        var e := FeedAll(d.rest, chunks[1..]);
        e.(commands := d.commands + e.commands)
  }

  /** The server's loop: receive, feed, drain; the socket is the list of chunks. */
  method Serve(chunks: seq<Bytes>) returns (d: Drained)
    ensures d == FeedAll([], chunks)
  {
    var parser := new Parser();
    var commands: seq<Command> := [];
    ghost var all := FeedAll([], chunks);
    assert chunks[0..] == chunks;
    for i := 0 to |chunks|
      invariant fresh(parser)
      invariant Prefixed(commands, FeedAll(parser.buffer, chunks[i..])) == all
    {
      assert chunks[i..][0] == chunks[i] && chunks[i..][1..] == chunks[i + 1..];
      ghost var was, given := commands, parser.buffer;
      parser.Feed(chunks[i]);
      var more, failed := DrainParser(parser);
      commands := commands + more;
      FeedOne(was, given, chunks[i..], Drained(more, parser.buffer, failed));
      if failed { return Drained(commands, parser.buffer, true); }
    }
    d := Drained(commands, parser.buffer, false);
    assert commands + [] == commands;
  }

  function Prefixed(commands: seq<Command>, d: Drained): Drained {
    d.(commands := commands + d.commands)
  }

  lemma DrainStep(commands: seq<Command>, buffer: Bytes, r: Parse)
    requires r == ParseCommand(buffer)
    ensures !r.Complete? ==> Prefixed(commands, Drain(buffer)) == Drained(commands, r.rest, r.ProtocolError?)
    ensures r.Complete? ==> Prefixed(commands, Drain(buffer)) == Prefixed(commands + [r.args], Drain(r.rest))
  {
    if r.Complete? {
      Assoc(commands, [r.args], Drain(r.rest).commands);
    } else {
      assert commands + [] == commands;
    }
  }

  lemma FeedOne(was: seq<Command>, buf: Bytes, chunks: seq<Bytes>, d: Drained)
    requires chunks != [] && d == Drain(buf + chunks[0])
    ensures d.failed ==> Prefixed(was, FeedAll(buf, chunks)) == Drained(was + d.commands, d.rest, true)
    ensures !d.failed ==>
      Prefixed(was, FeedAll(buf, chunks)) == Prefixed(was + d.commands, FeedAll(d.rest, chunks[1..]))
  {
    var e := FeedAll(d.rest, chunks[1..]);
    assert was + (d.commands + e.commands) == was + d.commands + e.commands;
  }

  /** The inner loop: one command after the other, until none is complete. */
  method DrainParser(parser: Parser) returns (commands: seq<Command>, failed: bool)
    modifies parser
    ensures Drained(commands, parser.buffer, failed) == Drain(old(parser.buffer))
  {
    commands := [];
    ghost var all := Drain(parser.buffer);
    while true
      invariant Prefixed(commands, Drain(parser.buffer)) == all
      decreases |parser.buffer|
    {
      ghost var buffer := parser.buffer;
      var r := parser.TryParseCommand();
      DrainStep(commands, buffer, r);
      if !r.Complete? { return commands, r.ProtocolError?; }
      commands := commands + [r.args];
    }
  }

  // ---------------------------------------------------------------- whole requests and a torn one

  lemma StreamCons(items: seq<Item>, tail: Bytes)
    requires items != []
    ensures Stream(items) + tail == Wire(items[0]) + (Stream(items[1..]) + tail)
  {
  }

  lemma DrainItem(item: Message, rest: Bytes)
    requires item.Blank? && rest != [] ==> rest[0] != STAR
    ensures Drain(Wire(item) + rest) == Prefixed(CommandOf(item), Drain(rest))
  {
    if item.Blank? {
      BlankReads(item.text, rest);
      assert ParseCommand(rest) == ParseInline(rest);
      assert [] + Drain(rest).commands == Drain(rest).commands;
      SameParse(Wire(item) + rest, rest);
    } else {
      RequestReads(item, rest);
    }
  }

  lemma SameParse(a: Bytes, b: Bytes)
    requires ParseCommand(a) == ParseCommand(b)
    ensures Drain(a) == Drain(b)
  {
  }

  lemma CommandsCons(items: seq<Item>, d: Drained)
    requires items != []
    ensures Prefixed(CommandOf(items[0]), Prefixed(Commands(items[1..]), d)) == Prefixed(Commands(items), d)
  {
    Assoc(CommandOf(items[0]), Commands(items[1..]), d.commands);
  }

  lemma NoStarBehindBlank(items: seq<Message>, tail: Bytes)
    requires items != [] && items[0].Blank? && Clean(items) && Separate(items, tail)
    ensures Stream(items[1..]) + tail != [] ==> (Stream(items[1..]) + tail)[0] != STAR
  {
    if |items| > 1 {
      assert !items[1].Frame?;
      assert Stream(items[1..]) == Wire(items[1]) + Stream(items[1..][1..]);
      assert (Stream(items[1..]) + tail)[0] == Wire(items[1])[0];
    } else {
      assert Stream(items[1..]) + tail == tail;
    }
  }

  /** Whole requests come off the front of a buffer, whatever follows them, except a frame behind a blank line. */
  lemma {:induction false} DrainStream(items: seq<Message>, tail: Bytes)
    requires Clean(items) && Separate(items, tail)
    ensures Drain(Stream(items) + tail) == Prefixed(Commands(items), Drain(tail))
  {
    if items == [] {
      assert Stream(items) + tail == tail && [] + Drain(tail).commands == Drain(tail).commands;
    } else {
      StreamCons(items, tail);
      if items[0].Blank? { NoStarBehindBlank(items, tail); }
      DrainItem(items[0], Stream(items[1..]) + tail);
      DrainStream(items[1..], tail);
      CommandsCons(items, Drain(tail));
    }
  }

  /** How many whole requests the first `k` bytes of a stream hold. */
  function Whole(items: seq<Item>, k: nat): (n: nat)
    ensures n <= |items|
  {
    if items == [] || k < |Wire(items[0])| then 0 else 1 + Whole(items[1..], k - |Wire(items[0])|)
  }

  /** Part of the next request, or nothing after the last one. */
  predicate Torn(items: seq<Item>, n: nat, torn: Bytes)
    requires n <= |items|
  {
    if n < |items| then torn < Wire(items[n]) else torn == []
  }

  lemma {:induction false} WholeFits(items: seq<Item>, k: nat) returns (torn: Bytes)
    requires k <= |Stream(items)|
    ensures Stream(items)[..k] == Stream(items[..Whole(items, k)]) + torn && Torn(items, Whole(items, k), torn)
  {
    var n := Whole(items, k);
    if n == 0 {
      torn := Stream(items)[..k];
      assert Stream(items[..0]) + torn == torn;
    } else {
      var w, tail := Wire(items[0]), items[1..];
      torn := WholeFits(tail, k - |w|);
      StreamTake(items, n);
      TakeAppend(w, Stream(tail), k);
      Assoc(w, Stream(tail[..n - 1]), torn);
    }
  }

  lemma StreamTake(items: seq<Item>, n: nat)
    requires 0 < n <= |items|
    ensures Stream(items[..n]) == Wire(items[0]) + Stream(items[1..][..n - 1])
  {
    assert items[..n][1..] == items[1..][..n - 1];
  }

  lemma TornWaits(items: seq<Request>, n: nat, torn: Bytes)
    requires n <= |items| && Torn(items, n, torn)
    ensures Drain(torn) == Drained([], torn, false)
  {
    if n < |items| {
      TornRequest(items[n], |torn|);
      assert torn == Wire(items[n])[..|torn|];
    }
  }

  /** Any part of a clean stream is clean, and what follows the first part is separate from it. */
  lemma CleanSplit(items: seq<Request>, n: nat, tail: Bytes)
    requires Clean(items) && n <= |items| && tail <= Stream(items[n..])
    ensures Clean(items[..n]) && Clean(items[n..]) && Separate(items[..n], tail)
  {
    forall i | 0 < i < |items[n..]| && items[n..][i].Frame? ensures !items[n..][i - 1].Blank? {
      assert items[n..][i] == items[n + i] && items[n..][i - 1] == items[n + i - 1];
    }
    if n > 0 && n < |items| && items[n - 1].Blank? && tail != [] {
      assert !items[n].Frame?;
      assert Stream(items[n..])[0] == Wire(items[n])[0];
    }
  }

  lemma TornIsPrefix(items: seq<Item>, n: nat, torn: Bytes)
    requires n <= |items| && Torn(items, n, torn)
    ensures torn <= Stream(items[n..])
  {
    if n < |items| { assert Stream(items[n..]) == Wire(items[n]) + Stream(items[n..][1..]); }
  }

  /** Cut anywhere, a stream drains to exactly its whole requests; the torn rest waits in the buffer. */
  lemma TornStream(items: seq<Request>, k: nat) returns (torn: Bytes)
    requires k <= |Stream(items)| && Clean(items)
    ensures Stream(items)[..k] == Stream(items[..Whole(items, k)]) + torn && Torn(items, Whole(items, k), torn)
    ensures Drain(Stream(items)[..k]) == Drained(Commands(items[..Whole(items, k)]), torn, false)
  {
    torn := WholeFits(items, k);
    var n := Whole(items, k);
    TornIsPrefix(items, n, torn);
    CleanSplit(items, n, torn);
    DrainStream(items[..n], torn);
    TornWaits(items, n, torn);
    assert Commands(items[..n]) + [] == Commands(items[..n]);
  }

  // ---------------------------------------------------------------- chunks

  function Concat(chunks: seq<Bytes>): Bytes {
    if chunks == [] then [] else chunks[0] + Concat(chunks[1..])
  }

  lemma {:induction false} StreamSplit(items: seq<Item>, n: nat)
    requires n <= |items|
    ensures Stream(items) == Stream(items[..n]) + Stream(items[n..])
  {
    if n == 0 {
      assert items[0..] == items && Stream(items[..0]) == [];
    } else {
      StreamSplit(items[1..], n - 1);
      assert items[..n][1..] == items[1..][..n - 1] && items[1..][n - 1..] == items[n..];
    }
  }

  lemma FeedStep(buf: Bytes, chunks: seq<Bytes>, d: Drained, e: Drained)
    requires chunks != [] && Drain(buf + chunks[0]) == d && !d.failed && FeedAll(d.rest, chunks[1..]) == e
    ensures FeedAll(buf, chunks) == Prefixed(d.commands, e)
  {
  }

  /** After the first chunk: the whole requests in it are out, and the rest of the stream is still to come. */
  lemma FirstChunk(items: seq<Request>, given: Bytes, later: Bytes) returns (n: nat, torn: Bytes)
    requires given + later <= Stream(items) && Clean(items)
    ensures n <= |items| && given == Stream(items[..n]) + torn
    ensures Drain(given) == Drained(Commands(items[..n]), torn, false)
    ensures Drain(torn) == Drained([], torn, false)
    ensures torn + later <= Stream(items[n..])
  {
    n := Whole(items, |given|);
    assert given == Stream(items)[..|given|];
    torn := TornStream(items, |given|);
    TornWaits(items, n, torn);
    StreamSplit(items, n);
    Assoc(Stream(items[..n]), torn, later);
    PrefixCancel(Stream(items[..n]), torn + later, Stream(items[n..]));
  }

  /** Any chunking of a stream, or of part of one, gives what draining it in one piece gives. */
  lemma {:induction false} ChunkingIrrelevant(items: seq<Request>, buf: Bytes, chunks: seq<Bytes>)
    requires buf + Concat(chunks) <= Stream(items) && Clean(items) && Drain(buf) == Drained([], buf, false)
    ensures FeedAll(buf, chunks) == Drain(buf + Concat(chunks))
    decreases |chunks|
  {
    if chunks == [] {
      assert buf + Concat(chunks) == buf;
    } else {
      var given, later := buf + chunks[0], Concat(chunks[1..]);
      Assoc(buf, chunks[0], later);
      var n, torn := FirstChunk(items, given, later);
      CleanSplit(items, n, torn + later);
      ChunkingIrrelevant(items[n..], torn, chunks[1..]);
      FeedStep(buf, chunks, Drained(Commands(items[..n]), torn, false), Drain(torn + later));
      DrainStream(items[..n], torn + later);
      Assoc(Stream(items[..n]), torn, later);
    }
  }

  /** For every run of requests with no frame directly behind a blank line, and every split of its bytes, exactly those
      commands come out, in order. */
  lemma EveryChunking(items: seq<Request>, chunks: seq<Bytes>)
    requires Concat(chunks) == Stream(items) && Clean(items)
    ensures FeedAll([], chunks) == Drained(Commands(items), [], false)
  {
    var none: Bytes := [];
    assert none + Concat(chunks) == Stream(items);
    ChunkingIrrelevant(items, none, chunks);
    DrainStream(items, none);
    assert Stream(items) + none == Stream(items);
    assert Commands(items) + [] == Commands(items);
  }
}
