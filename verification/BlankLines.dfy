/** Exactly when chunking matters: for a frame that shares a buffer with the blank line before it, and for a line
    that is too long to wait for its end. */
module BlankLines {
  import opened Bytes
  import opened Decimal
  import opened Resp
  import opened CommandParser
  import opened ParserTheory
  import opened Framing

  // ---------------------------------------------------------------- a frame read as text

  lemma {:induction false} OneTokenEnd(line: Bytes, i: nat)
    requires i <= |line| && forall j | i <= j < |line| :: !IsSpace(line[j])
    ensures TokenEnd(line, i) == |line|
    decreases |line| - i
  {
    if i < |line| { OneTokenEnd(line, i + 1); }
  }

  /** A tag and a number on a line of their own, read as inline text: one token. */
  lemma HeaderAsText(tag: Byte, n: int, rest: Bytes)
    requires !IsSpace(tag)
    ensures ParseInline([tag] + ToDecimal(n) + CRLF + rest) == Complete([[tag] + ToDecimal(n)], rest)
  {
    var token := [tag] + ToDecimal(n);
    var s := token + CRLF + rest;
    DecimalBytes(n);
    assert forall j | 0 <= j < |token| :: s[j] == token[j] && !IsSpace(token[j]);
    FindLfIs(s, 0, |token| + 1);
    assert s[..|token| + 1] == token + [CR] && s[|token| + 2..] == rest;
    assert StripCr(token + [CR]) == token;
    OneTokenEnd(token, 0);
    assert TokensFrom(token, |token|) == [];
    assert token[0..TokenEnd(token, 0)] == token;
  }

  lemma BlankThenText(text: Bytes, s: Bytes, args: Command, rest: Bytes)
    requires PlainLine(text) && Tokens(StripCr(text)) == [] && ParseInline(s) == Complete(args, rest)
    ensures Drain(text + [LF] + s) == Prefixed([args], Drain(rest))
  {
    BlankReads(text, s);
  }

  lemma FrameSplits(cmd: Command, rest: Bytes)
    ensures FrameOf(cmd) + rest == [STAR] + ToDecimal(|cmd|) + CRLF + (EncodeItems(Bulks(cmd)) + rest)
  {
    Assoc([STAR] + ToDecimal(|cmd|) + CRLF, EncodeItems(Bulks(cmd)), rest);
  }

  /** Behind a blank line, the count line of a frame comes out as a command, and its body is read on its own. */
  lemma FrameAsText(text: Bytes, cmd: Command, rest: Bytes)
    requires PlainLine(text) && Tokens(StripCr(text)) == []
    ensures Drain(text + [LF] + (FrameOf(cmd) + rest))
         == Prefixed([[[STAR] + ToDecimal(|cmd|)]], Drain(EncodeItems(Bulks(cmd)) + rest))
  {
    var more := EncodeItems(Bulks(cmd)) + rest;
    FrameSplits(cmd, rest);
    HeaderAsText(STAR, |cmd|, more);
    BlankThenText(text, FrameOf(cmd) + rest, [[STAR] + ToDecimal(|cmd|)], more);
  }

  const STAR_ONE: Bytes := [STAR, 49]
  const STAR_ONE_LINE: Bytes := [STAR, 49, CR, LF]
  const DOLLAR_TWO: Bytes := [DOLLAR, 50]
  const DOLLAR_TWO_LINE: Bytes := [DOLLAR, 50, CR]

  lemma CountReads(n: nat, rest: Bytes)
    requires 1 <= n <= MAX_ARGS
    ensures var head := [STAR] + ToDecimal(n) + CRLF;
      ParseCommand(head + rest) == ParseBulks(head + rest, |head|, n, [])
  {
    var head := [STAR] + ToDecimal(n) + CRLF;
    assert At(head + rest, 0, head);
    HeaderReads(head + rest, 0, STAR, n);
  }

  lemma StarOneReads(rest: Bytes)
    ensures ParseCommand(STAR_ONE_LINE + rest) == ParseBulks(STAR_ONE_LINE + rest, 4, 1, [])
  {
    assert ToDecimal(1) == [49];
    assert [STAR] + ToDecimal(1) + CRLF == STAR_ONE_LINE;
    CountReads(1, rest);
  }

  lemma {:induction false} TokenStops(line: Bytes, i: nat)
    requires i <= |line|
    ensures TokenEnd(line, i) == |line| || IsSpace(line[TokenEnd(line, i)])
    decreases |line| - i
  {
    if i < |line| && !IsSpace(line[i]) { TokenStops(line, i + 1); }
  }

  /** A line of the one word `$2` that is not a length: what follows the digit is neither a digit nor CR LF. */
  lemma NotALength(text: Bytes)
    requires text != [] && text[0] == DOLLAR && LF !in text && text != DOLLAR_TWO_LINE
    requires Tokens(StripCr(text)) == [DOLLAR_TWO]
    ensures |text| >= 2 && text[1] == 50
    ensures |text| > 2 ==> IsSpace(text[2]) && (text[2] == CR ==> |text| > 3)
  {
    var line := StripCr(text);
    assert line != [] && line[0] == DOLLAR;
    var e := TokenEnd(line, 0);
    TokenStops(line, 0);
    assert TokensFrom(line, 0)[0] == line[0..e];
    assert line[0..e] == DOLLAR_TWO;
    assert e == 2 && line[0..e][1] == line[1] == 50;
    assert |text| == 3 ==> text[2] != CR;
  }

  lemma {:induction false} FindCrlfBeyond(s: Bytes, pos: nat, k: nat)
    requires pos <= k < |s| && forall j | pos <= j <= k :: s[j] == CR ==> j + 1 < |s| && s[j + 1] != LF
    ensures FindCrlf(s, pos).Some? ==> FindCrlf(s, pos).value > k
    decreases k - pos
  {
    if pos < k { FindCrlfBeyond(s, pos + 1, k); }
  }

  lemma BadLength(s: Bytes, pos: nat)
    requires pos + 2 < |s| && s[pos] == DOLLAR && s[pos + 1] == 50 && IsSpace(s[pos + 2])
    requires s[pos + 2] == CR ==> pos + 3 < |s| && s[pos + 3] != LF
    ensures ParseBulk(s, pos).More? || ParseBulk(s, pos).Bad?
  {
    FindCrlfBeyond(s, pos, pos + 2);
    var e := FindCrlf(s, pos);
    if e.Some? { DigitsOnly(s, pos + 1, e.value, 0, pos + 2); }
  }

  /** Without a first argument, the frame is refused or stays in the buffer. */
  lemma NoArgument(rest: Bytes)
    requires ParseBulk(STAR_ONE_LINE + rest, 4).More? || ParseBulk(STAR_ONE_LINE + rest, 4).Bad?
    ensures Drain(STAR_ONE_LINE + rest).failed || Drain(STAR_ONE_LINE + rest).rest != []
  {
    StarOneReads(rest);
  }

  /** The start of a frame with one argument, and then something that starts no argument. */
  lemma OpenFrame(rest: Bytes)
    requires rest != [] ==> rest[0] != DOLLAR
    ensures Drain(STAR_ONE_LINE + rest).failed || Drain(STAR_ONE_LINE + rest).rest != []
  {
    if rest != [] { assert (STAR_ONE_LINE + rest)[4] == rest[0]; }
    NoArgument(rest);
  }

  lemma LengthBytes(text: Bytes, rest: Bytes)
    requires text != [] && text[0] == DOLLAR && LF !in text && text != DOLLAR_TWO_LINE
    requires Tokens(StripCr(text)) == [DOLLAR_TWO]
    ensures var s := STAR_ONE_LINE + (text + [LF] + rest);
      && 7 <= |s| && s[4] == DOLLAR && s[5] == 50 && IsSpace(s[6])
      && (s[6] == CR ==> 7 < |s| && s[7] != LF)
  {
    var more := text + [LF] + rest;
    NotALength(text);
    assert more[0] == DOLLAR && more[1] == 50 && more[2] == if |text| == 2 then LF else text[2];
    if more[2] == CR { assert more[3] == text[3] && text[3] in text; }
  }

  /** The start of a frame with one argument, and then such a line. */
  lemma OpenLength(text: Bytes, rest: Bytes)
    requires text != [] && text[0] == DOLLAR && LF !in text && text != DOLLAR_TWO_LINE
    requires Tokens(StripCr(text)) == [DOLLAR_TWO]
    ensures var d := Drain(STAR_ONE_LINE + (text + [LF] + rest)); d.failed || d.rest != []
  {
    LengthBytes(text, rest);
    BadLength(STAR_ONE_LINE + (text + [LF] + rest), 4);
    NoArgument(text + [LF] + rest);
  }

  /** The one frame whose count line, read as text, is its own command. */
  lemma SelfNamed(rest: Bytes)
    ensures Drain(EncodeItems(Bulks([STAR_ONE])) + rest) == Prefixed([[DOLLAR_TWO]], Drain(STAR_ONE_LINE + rest))
  {
    var head := [DOLLAR] + ToDecimal(2) + CRLF;
    assert ToDecimal(2) == [50];
    BulksCons([STAR_ONE]);
    assert [STAR_ONE][1..] == [] && EncodeItems(Bulks([])) == [];
    assert EncodeItems(Bulks([STAR_ONE])) == head + STAR_ONE_LINE;
    Assoc(head, STAR_ONE_LINE, rest);
    HeaderAsText(DOLLAR, 2, STAR_ONE_LINE + rest);
    assert [DOLLAR] + [50] == DOLLAR_TWO;
  }

  lemma HeaderIsNot(cmd: Command)
    requires cmd != [STAR_ONE]
    ensures [[STAR] + ToDecimal(|cmd|)] != cmd
  {
    if |cmd| == 1 {
      assert ToDecimal(1) == [49] && [STAR] + [49] == STAR_ONE;
      assert cmd == [cmd[0]];
    }
  }

  lemma FirstDiffers(first: Command, d: Drained, cmd: Command, more: seq<Command>)
    requires first != cmd
    ensures Prefixed([first], d) != Drained([cmd] + more, [], false)
  {
    assert ([first] + d.commands)[0] == first && ([cmd] + more)[0] == cmd;
  }

  lemma AppendCancel(a: seq<Command>, b: seq<Command>, c: seq<Command>)
    requires a + b == a + c
    ensures b == c
  {
    assert (a + b)[|a|..] == b && (a + c)[|a|..] == c;
  }

  lemma Differs(pre: seq<Command>, d: Drained, cmds: seq<Command>)
    requires d != Drained(cmds, [], false)
    ensures Prefixed(pre, d) != Drained(pre + cmds, [], false)
  {
    if pre + d.commands == pre + cmds { AppendCancel(pre, d.commands, cmds); }
  }

  // ---------------------------------------------------------------- a frame behind a blank line

  /** Behind the frame of `*1`, a line that passes for the length of its argument. */
  predicate Lookalike(cmd: Command, post: seq<Item>) {
    cmd == [STAR_ONE] && post != [] && post[0] == Line(DOLLAR_TWO_LINE)
  }

  /** Nowhere does such a line follow such a frame behind a blank line. */
  predicate NoLookalike(items: seq<Item>) {
    forall i | 0 <= i < |items| - 1 && items[i].Blank? && items[i + 1].Frame? ::
      !Lookalike(items[i + 1].cmd, items[i + 2..])
  }

  lemma FirstByte(post: seq<Message>)
    requires post != []
    ensures Stream(post) != [] && (Stream(post)[0] == DOLLAR ==> post[0].Line? && post[0].text != [])
    ensures post[0].Line? && post[0].text != [] ==> Stream(post)[0] == post[0].text[0]
  {
    match post[0]
    case Frame(cmd) => assert FrameOf(cmd)[0] == STAR;
    case Blank(text) => if text != [] { BlankStart(text); }
    case Line(text) =>
  }

  lemma BlankStart(text: Bytes)
    requires text != [] && PlainLine(text) && Tokens(StripCr(text)) == []
    ensures text[0] != DOLLAR
  {
    var line := StripCr(text);
    if line != [] {
      assert line[0] == text[0];
      assert TokensFrom(line, 0) == [];
    }
  }

  lemma LineFirst(text: Bytes, post: seq<Message>)
    requires post != [] && post[0] == Line(text)
    ensures Stream(post) == text + [LF] + Stream(post[1..])
    ensures Commands(post) == [Tokens(StripCr(text))] + Commands(post[1..])
  {
  }

  lemma SelfNamedMisread(post: seq<Message>)
    requires !Lookalike([STAR_ONE], post)
    ensures Prefixed([[DOLLAR_TWO]], Drain(STAR_ONE_LINE + Stream(post))) != Drained(Commands(post), [], false)
  {
    if post != [] { FirstByte(post); }
    if post == [] || Stream(post)[0] != DOLLAR {
      OpenFrame(Stream(post));
    } else {
      var text := post[0].text;
      LineFirst(text, post);
      if Tokens(StripCr(text)) == [DOLLAR_TWO] {
        OpenLength(text, Stream(post[1..]));
      } else {
        FirstDiffers([DOLLAR_TWO], Drain(STAR_ONE_LINE + Stream(post)), Tokens(StripCr(text)), Commands(post[1..]));
      }
    }
  }

  /** In one buffer with the blank line before it, a frame and what follows do not give their commands. */
  lemma Misread(text: Bytes, cmd: Command, post: seq<Message>)
    requires PlainLine(text) && Tokens(StripCr(text)) == [] && !Lookalike(cmd, post)
    ensures Drain(text + [LF] + (FrameOf(cmd) + Stream(post))) != Drained([cmd] + Commands(post), [], false)
  {
    FrameAsText(text, cmd, Stream(post));
    var d := Drain(EncodeItems(Bulks(cmd)) + Stream(post));
    if cmd == [STAR_ONE] {
      assert ToDecimal(1) == [49] && [STAR] + [49] == STAR_ONE;
      SelfNamed(Stream(post));
      SelfNamedMisread(post);
      Differs([cmd], d, Commands(post));
    } else {
      HeaderIsNot(cmd);
      FirstDiffers([[STAR] + ToDecimal(|cmd|)], d, cmd, Commands(post));
    }
  }

  // ---------------------------------------------------------------- streams

  lemma FirstBadFrame(items: seq<Message>) returns (i: nat)
    requires !Clean(items)
    ensures 0 < i < |items| && items[i].Frame? && items[i - 1].Blank? && Clean(items[..i - 1])
  {
    i := 1;
    while !(items[i].Frame? && items[i - 1].Blank?)
      invariant 0 < i < |items| && forall j | 0 < j < i :: !(items[j].Frame? && items[j - 1].Blank?)
      decreases |items| - i
    {
      i := i + 1;
    }
  }

  lemma TakeTwo<T>(s: seq<T>, i: nat)
    requires 0 < i < |s|
    ensures s == s[..i - 1] + ([s[i - 1], s[i]] + s[i + 1..])
  {
  }

  lemma StreamAppend(a: seq<Item>, b: seq<Item>)
    ensures Stream(a + b) == Stream(a) + Stream(b)
  {
    StreamSplit(a + b, |a|);
    assert (a + b)[..|a|] == a && (a + b)[|a|..] == b;
  }

  lemma {:induction false} CommandsAppend(a: seq<Item>, b: seq<Item>)
    ensures Commands(a + b) == Commands(a) + Commands(b)
  {
    if a == [] {
      assert a + b == b;
    } else {
      CommandsAppend(a[1..], b);
      assert (a + b)[0] == a[0] && (a + b)[1..] == a[1..] + b;
      Assoc(CommandOf(a[0]), Commands(a[1..]), Commands(b));
    }
  }

  lemma StreamOfTwo(a: Item, b: Item, rest: seq<Item>)
    ensures Stream([a, b] + rest) == Wire(a) + (Wire(b) + Stream(rest))
    ensures Commands([a, b] + rest) == CommandOf(a) + (CommandOf(b) + Commands(rest))
  {
    var two, one := [a, b] + rest, [b] + rest;
    assert two[0] == a && two[1..] == one && one[0] == b && one[1..] == rest;
  }

  lemma BadPair(blank: Message, frame: Message, post: seq<Message>)
    requires blank.Blank? && frame.Frame? && !Lookalike(frame.cmd, post)
    ensures Drain(Stream([blank, frame] + post)) != Drained(Commands([blank, frame] + post), [], false)
    ensures Stream([blank, frame] + post)[0] != STAR
  {
    StreamOfTwo(blank, frame, post);
    Misread(blank.text, frame.cmd, post);
    assert [] + ([frame.cmd] + Commands(post)) == [frame.cmd] + Commands(post);
    if blank.text != [] { assert Stream([blank, frame] + post)[0] == blank.text[0]; }
  }

  /** In one piece, such a stream gives something else than its commands. */
  lemma OnePieceFails(items: seq<Message>)
    requires !Clean(items) && NoLookalike(items)
    ensures Drain(Stream(items)) != Drained(Commands(items), [], false)
  {
    var i := FirstBadFrame(items);
    var pre, blank, frame, post := items[..i - 1], items[i - 1], items[i], items[i + 1..];
    assert !Lookalike(frame.cmd, post);
    TakeTwo(items, i);
    var bad := [blank, frame] + post;
    StreamAppend(pre, bad);
    CommandsAppend(pre, bad);
    BadPair(blank, frame, post);
    DrainStream(pre, Stream(bad));
    Differs(Commands(pre), Drain(Stream(bad)), Commands(bad));
  }

  function Wires(items: seq<Item>): seq<Bytes> {
    if items == [] then [] else [Wire(items[0])] + Wires(items[1..])
  }

  lemma {:induction false} WiresConcat(items: seq<Item>, more: seq<Bytes>)
    ensures Concat(Wires(items) + more) == Stream(items) + Concat(more)
  {
    var chunks := Wires(items) + more;
    if items == [] {
      assert chunks == more;
    } else {
      WiresConcat(items[1..], more);
      assert chunks[0] == Wire(items[0]) && chunks[1..] == Wires(items[1..]) + more;
      Assoc(Wire(items[0]), Stream(items[1..]), Concat(more));
    }
  }

  lemma FeedItem(item: Message, chunks: seq<Bytes>)
    requires chunks != [] && chunks[0] == Wire(item)
    ensures FeedAll([], chunks) == Prefixed(CommandOf(item), FeedAll([], chunks[1..]))
  {
    var none: Bytes, w := [], Wire(item);
    DrainItem(item, none);
    assert w + none == w && none + w == w && CommandOf(item) + [] == CommandOf(item);
    FeedStep(none, chunks, Drained(CommandOf(item), none, false), FeedAll(none, chunks[1..]));
  }

  /** Cut at the ends of its items, every stream gives its commands. */
  lemma {:induction false} ItemByItem(items: seq<Message>, more: seq<Bytes>)
    ensures FeedAll([], Wires(items) + more) == Prefixed(Commands(items), FeedAll([], more))
  {
    var chunks := Wires(items) + more;
    if items == [] {
      assert chunks == more;
    } else {
      assert chunks[0] == Wire(items[0]) && chunks[1..] == Wires(items[1..]) + more;
      FeedItem(items[0], chunks);
      ItemByItem(items[1..], more);
      CommandsCons(items, FeedAll([], more));
    }
  }

  lemma AllItems(items: seq<Message>)
    ensures Concat(Wires(items)) == Stream(items) && FeedAll([], Wires(items)) == Drained(Commands(items), [], false)
  {
    var none: Bytes, nothing: seq<Bytes> := [], [];
    WiresConcat(items, nothing);
    ItemByItem(items, nothing);
    assert Wires(items) + nothing == Wires(items) && Stream(items) + none == Stream(items);
    assert Commands(items) + [] == Commands(items);
  }

  // ---------------------------------------------------------------- long lines

  lemma FeedFails(buf: Bytes, chunks: seq<Bytes>)
    requires chunks != [] && Drain(buf + chunks[0]).failed
    ensures FeedAll(buf, chunks).failed
  {
  }

  lemma LongText(text: Bytes)
    requires LF !in text && |text| > MAX_BULK_LEN && text[0] != STAR
    ensures Drain(text).failed
  {
    FindLfNone(text, 0);
  }

  lemma ConcatCons(text: Bytes, chunks: seq<Bytes>)
    ensures Concat([text, [LF]] + chunks) == text + [LF] + Concat(chunks)
  {
    var all, one := [text, [LF]] + chunks, [[LF]] + chunks;
    assert all[0] == text && all[1..] == one && one[0] == [LF] && one[1..] == chunks;
    Assoc(text, [LF], Concat(chunks));
  }

  /** Sent without its end, a line over the limit is refused. */
  lemma TooLongToWait(items: seq<Message>, i: nat) returns (chunks: seq<Bytes>)
    requires i < |items| && !Short(items[i])
    ensures Concat(chunks) == Stream(items) && FeedAll([], chunks).failed
  {
    var none: Bytes := [];
    var text, post := items[i].text, items[i + 1..];
    var more := [text, [LF]] + Wires(post);
    LongText(text);
    assert none + text == text && more[0] == text;
    FeedFails(none, more);
    WiresConcat(items[..i], more);
    ItemByItem(items[..i], more);
    AllItems(post);
    ConcatCons(text, Wires(post));
    StreamSplit(items, i);
    assert items[i..][0] == items[i] && items[i..][1..] == post;
    chunks := Wires(items[..i]) + more;
  }

  // ---------------------------------------------------------------- exactly when chunking is irrelevant

  predicate AllShort(items: seq<Item>) {
    forall i | 0 <= i < |items| :: Short(items[i])
  }

  /** All ways to cut the bytes give what one piece gives. */
  ghost predicate ChunksAgree(s: Bytes) {
    forall chunks | Concat(chunks) == s :: FeedAll([], chunks) == Drain(s)
  }

  lemma CleanAgrees(items: seq<Request>)
    requires Clean(items)
    ensures ChunksAgree(Stream(items))
  {
    var none: Bytes := [];
    DrainStream(items, none);
    assert Stream(items) + none == Stream(items) && Commands(items) + [] == Commands(items);
    forall chunks | Concat(chunks) == Stream(items) ensures FeedAll([], chunks) == Drain(Stream(items)) {
      EveryChunking(items, chunks);
    }
  }

  /** Chunking is irrelevant for a stream of frames, lines and blank lines exactly if no frame is directly behind a
      blank line and no line is longer than the limit. */
  lemma ChunkingExact(items: seq<Message>)
    requires NoLookalike(items)
    ensures ChunksAgree(Stream(items)) <==> Clean(items) && AllShort(items)
  {
    AllItems(items);
    if !AllShort(items) {
      var i: nat :| i < |items| && !Short(items[i]);
      var chunks := TooLongToWait(items, i);
    } else if Clean(items) {
      CleanAgrees(items);
    } else {
      OnePieceFails(items);
    }
  }

  // ---------------------------------------------------------------- a coincidence

  /** The frame of `*1`, the length line of its argument once more, a line of two bytes, and more. */
  function AsSent(word: Bytes, post: seq<Item>): seq<Item> {
    [Frame([STAR_ONE]), Line(DOLLAR_TWO_LINE), Line(word + [CR])] + post
  }

  /** The same bytes behind the first count line: the length line, and the frame of the two bytes. */
  function AsText(word: Bytes, post: seq<Item>): seq<Item> {
    [Line(DOLLAR_TWO_LINE), Frame([word])] + post
  }

  predicate TwoLetters(word: Bytes) {
    |word| == 2 && word[0] != STAR && !IsSpace(word[0]) && !IsSpace(word[1])
  }

  lemma OneWord(word: Bytes)
    requires |word| == 2 && !IsSpace(word[0]) && !IsSpace(word[1])
    ensures Tokens(StripCr(word + [CR])) == [word]
  {
    assert StripCr(word + [CR]) == word;
    OneTokenEnd(word, 0);
    assert TokensFrom(word, 2) == [] && word[0..2] == word;
  }

  lemma TwoByteFrame(word: Bytes)
    requires |word| == 2
    ensures FrameOf([word]) == STAR_ONE_LINE + (DOLLAR_TWO_LINE + [LF] + (word + CRLF))
  {
    BulksCons([word]);
    var rest: Command := [word][1..];
    assert rest == [] && EncodeItems(Bulks(rest)) == [];
    assert ToDecimal(1) == [49] && ToDecimal(2) == [50];
  }

  lemma Regroup(s: Bytes, d: Bytes, w: Bytes, p: Bytes)
    ensures s + (d + s) + (d + (w + p)) == s + (d + (s + (d + w) + p))
  {
  }

  lemma SentStream(word: Bytes, post: seq<Item>)
    requires TwoLetters(word)
    ensures Stream(AsSent(word, post))
         == STAR_ONE_LINE + (DOLLAR_TWO_LINE + [LF] + STAR_ONE_LINE)
            + (DOLLAR_TWO_LINE + [LF] + (word + CRLF + Stream(post)))
    ensures Commands(AsSent(word, post)) == [[STAR_ONE]] + ([[DOLLAR_TWO]] + ([[word]] + Commands(post)))
  {
    var length, end := Line(DOLLAR_TWO_LINE), Line(word + [CR]);
    OneWord(DOLLAR_TWO);
    OneWord(word);
    TwoByteFrame(STAR_ONE);
    assert AsSent(word, post)[0] == Frame([STAR_ONE]) && AsSent(word, post)[1..] == [length, end] + post;
    StreamOfTwo(length, end, post);
    assert DOLLAR_TWO + [CR] == DOLLAR_TWO_LINE && word + [CR] + [LF] == word + CRLF;
    assert STAR_ONE + CRLF == STAR_ONE_LINE;
  }

  lemma TextStream(word: Bytes, post: seq<Item>)
    requires TwoLetters(word)
    ensures Stream(AsText(word, post))
         == DOLLAR_TWO_LINE + [LF] + (STAR_ONE_LINE + (DOLLAR_TWO_LINE + [LF] + (word + CRLF)) + Stream(post))
    ensures Commands(AsText(word, post)) == [[DOLLAR_TWO]] + ([[word]] + Commands(post))
  {
    OneWord(DOLLAR_TWO);
    TwoByteFrame(word);
    StreamOfTwo(Line(DOLLAR_TWO_LINE), Frame([word]), post);
    assert DOLLAR_TWO + [CR] == DOLLAR_TWO_LINE;
  }

  /** The two readings of the same bytes give the same commands. */
  lemma TwoReadings(word: Bytes, post: seq<Item>)
    requires TwoLetters(word)
    ensures Stream(AsSent(word, post)) == STAR_ONE_LINE + Stream(AsText(word, post))
    ensures Commands(AsSent(word, post)) == [[STAR_ONE]] + Commands(AsText(word, post))
  {
    SentStream(word, post);
    TextStream(word, post);
    Regroup(STAR_ONE_LINE, DOLLAR_TWO_LINE + [LF], word + CRLF, Stream(post));
  }

  lemma BothValid(word: Bytes, post: seq<Request>) returns (sent: seq<Request>, text: seq<Request>)
    requires TwoLetters(word) && Clean(post)
    ensures sent == AsSent(word, post) && text == AsText(word, post) && Clean(sent) && Clean(text)
  {
    OneWord(DOLLAR_TWO);
    OneWord(word);
    assert DOLLAR_TWO + [CR] == DOLLAR_TWO_LINE;
    sent := [Frame([STAR_ONE]), Line(DOLLAR_TWO_LINE), Line(word + [CR])] + post;
    text := [Line(DOLLAR_TWO_LINE), Frame([word])] + post;
  }

  lemma FeedAlike(pre: seq<Command>, buf: Bytes, first: Bytes, buf': Bytes, first': Bytes, chunks: seq<Bytes>)
    requires Drain(buf + first) == Prefixed(pre, Drain(buf' + first'))
    ensures FeedAll(buf, [first] + chunks) == Prefixed(pre, FeedAll(buf', [first'] + chunks))
  {
    var one, two, d := [first] + chunks, [first'] + chunks, Drain(buf' + first');
    assert one[0] == first && two[0] == first' && one[1..] == chunks == two[1..];
    if !d.failed { Assoc(pre, d.commands, FeedAll(d.rest, chunks).commands); }
  }

  /** The first chunks end inside the count line: the blank line is gone, and a frame starts. */
  lemma CutInCountLine(text: Bytes, p: Bytes)
    requires PlainLine(text) && Tokens(StripCr(text)) == [] && p < STAR_ONE_LINE
    ensures Drain(text + [LF] + p) == Drained([], p, false)
  {
    BlankReads(text, p);
    FindLfNone(p, 0);
  }

  lemma CountLineWaits(p: Bytes)
    requires p < STAR_ONE_LINE
    ensures Drain(p) == Drained([], p, false)
  {
    var frame: Request := Frame([STAR_ONE]);
    TwoByteFrame(STAR_ONE);
    TornRequest(frame, |p|);
    assert p == Wire(frame)[..|p|];
  }

  /** They hold the whole count line: it is a command, and what follows is text. */
  lemma CutBehindCountLine(text: Bytes, q: Bytes)
    requires PlainLine(text) && Tokens(StripCr(text)) == []
    ensures Drain(text + [LF] + (STAR_ONE_LINE + q)) == Prefixed([[STAR_ONE]], Drain(q))
  {
    assert ToDecimal(1) == [49] && [STAR] + [49] == STAR_ONE && STAR_ONE + CRLF == STAR_ONE_LINE;
    HeaderAsText(STAR, 1, q);
    BlankThenText(text, STAR_ONE_LINE + q, [STAR_ONE], q);
  }

  lemma RestOf(a: Bytes, s: Bytes, given: Bytes, later: Bytes) returns (q: Bytes)
    requires given + later == a + s && |a| <= |given|
    ensures given == a + q && q + later == s
  {
    q := given[|a|..];
    assert given[..|a|] == (given + later)[..|a|] == a;
    assert (given + later)[|a|..] == q + later;
  }

  lemma FromCountLine(text: Bytes, word: Bytes, post: seq<Request>, buf: Bytes, chunks: seq<Bytes>)
    requires PlainLine(text) && Tokens(StripCr(text)) == [] && TwoLetters(word) && Clean(post) && chunks != []
    requires buf + chunks[0] + Concat(chunks[1..]) == text + [LF] + Stream(AsSent(word, post))
    requires |text| < |buf + chunks[0]|
    ensures FeedAll(buf, chunks) == Drained(Commands(AsSent(word, post)), [], false)
  {
    var none: Bytes, later := [], chunks[1..];
    var sent, asText := BothValid(word, post);
    TwoReadings(word, post);
    var p := RestOf(text + [LF], Stream(sent), buf + chunks[0], Concat(later));
    assert chunks == [chunks[0]] + later;
    if |p| < 4 {
      assert p == (p + Concat(later))[..|p|] == STAR_ONE_LINE[..|p|];
      CutInCountLine(text, p);
      CountLineWaits(p);
      assert none + p == p;
      FeedAlike([], buf, chunks[0], none, p, later);
      assert ([p] + later)[1..] == later;
      EveryChunking(sent, [p] + later);
    } else {
      var q := RestOf(STAR_ONE_LINE, Stream(asText), p, Concat(later));
      CutBehindCountLine(text, q);
      assert none + q == q;
      FeedAlike([[STAR_ONE]], buf, chunks[0], none, q, later);
      assert ([q] + later)[1..] == later;
      EveryChunking(asText, [q] + later);
    }
  }

  lemma {:induction false} EveryCut(text: Bytes, word: Bytes, post: seq<Request>, buf: Bytes, chunks: seq<Bytes>)
    requires PlainLine(text) && |text| <= MAX_BULK_LEN && Tokens(StripCr(text)) == []
    requires TwoLetters(word) && Clean(post) && |buf| <= |text|
    requires buf + Concat(chunks) == text + [LF] + Stream(AsSent(word, post))
    ensures FeedAll(buf, chunks) == Drained(Commands(AsSent(word, post)), [], false)
    decreases |chunks|
  {
    assert chunks != [];
    var given, later := buf + chunks[0], Concat(chunks[1..]);
    Assoc(buf, chunks[0], later);
    if |text| < |given| {
      FromCountLine(text, word, post, buf, chunks);
    } else {
      var blank: Request := Blank(text);
      assert given == (given + later)[..|given|] == Wire(blank)[..|given|];
      TornRequest(blank, |given|);
      EveryCut(text, word, post, given, chunks[1..]);
      FeedStep(buf, chunks, Drained([], given, false), FeedAll(given, chunks[1..]));
    }
  }

  /** The exception is needed: here a frame is behind a blank line, and still all chunkings agree, because both ways to
      read the bytes happen to give the same words. */
  lemma Coincidence(text: Bytes, word: Bytes, post: seq<Request>)
    requires PlainLine(text) && |text| <= MAX_BULK_LEN && Tokens(StripCr(text)) == []
    requires TwoLetters(word) && Clean(post)
    ensures var items := [Blank(text)] + AsSent(word, post);
      !Clean(items) && ChunksAgree(Stream(items)) && Drain(Stream(items)) == Drained(Commands(items), [], false)
  {
    var none: Bytes, items := [], [Blank(text)] + AsSent(word, post);
    assert items[0] == Blank(text) && items[1] == Frame([STAR_ONE]) && items[1..] == AsSent(word, post);
    assert Stream(items) == text + [LF] + Stream(AsSent(word, post));
    assert [] + Commands(AsSent(word, post)) == Commands(AsSent(word, post));
    forall chunks | Concat(chunks) == Stream(items)
      ensures FeedAll([], chunks) == Drained(Commands(items), [], false)
    {
      assert none + Concat(chunks) == Concat(chunks);
      EveryCut(text, word, post, none, chunks);
    }
    OnePiece(Stream(items));
  }

  lemma OnePiece(s: Bytes)
    ensures Concat([s]) == s && (FeedAll([], [s]) == Drain(s))
  {
    var none: Bytes, one: seq<Bytes> := [], [s];
    assert one[1..] == [] && s + none == s && none + s == s;
    assert Drain(s).commands + [] == Drain(s).commands;
  }

  lemma OneItem(item: Message)
    ensures Stream([item]) == Wire(item) && Clean([item]) && NoLookalike([item])
    ensures AllShort([item]) <==> Short(item)
  {
    var items, none: Bytes := [item], [];
    assert items[1..] == [] && Stream(items) == Wire(item) + none == Wire(item);
    assert AllShort(items) <==> Short(items[0]);
  }

  /** So a line that does not look like a frame can be sent in any chunks exactly if it is not longer than the limit. */
  lemma LineExact(text: Bytes)
    requires PlainLine(text)
    ensures ChunksAgree(text + [LF]) <==> |text| <= 67_108_864
  {
    var item: Message := if Tokens(StripCr(text)) == [] then Blank(text) else Line(text);
    OneItem(item);
    ChunkingExact([item]);
  }
}
