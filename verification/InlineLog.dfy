/** Commands typed as a line and the log: the inline parser has no limit on its words, the loader of the log has one. */
module InlineLog {
  import opened Bytes
  import opened Keyspace
  import opened CommandParser
  import opened ParserTheory
  import opened Framing
  import opened Dispatcher
  import opened Commands
  import Aof

  /** What separates words: a space, a tab, or the control bytes 11, 12 and 13. */
  predicate Blank(gap: Bytes) {
    forall i | 0 <= i < |gap| :: gap[i] == 32 || gap[i] == 9 || gap[i] == 11 || gap[i] == 12 || gap[i] == 13
  }

  predicate IsWord(w: Bytes) {
    w != [] && forall i | 0 <= i < |w| :: w[i] != 32 && !(9 <= w[i] <= 13)
  }

  predicate AllWords(words: Command) {
    forall i | 0 <= i < |words| :: IsWord(words[i])
  }

  /** A gap behind every word; only the last one may be empty. */
  predicate AllGaps(gaps: seq<Bytes>) {
    forall i | 0 <= i < |gaps| :: Blank(gaps[i]) && (i < |gaps| - 1 ==> gaps[i] != [])
  }

  /** The line that spells the words, each followed by its gap. */
  function Join(words: Command, gaps: seq<Bytes>): Bytes
    requires |words| == |gaps|
  {
    if words == [] then [] else words[0] + gaps[0] + Join(words[1..], gaps[1..])
  }

  lemma {:induction false} WordEnds(line: Bytes, i: nat, e: nat)
    requires i <= e <= |line| && (e < |line| ==> IsSpace(line[e])) && forall j | i <= j < e :: !IsSpace(line[j])
    ensures TokenEnd(line, i) == e
    decreases e - i
  {
    if i < e { WordEnds(line, i + 1, e); }
  }

  lemma {:induction false} BlanksSkipped(line: Bytes, i: nat, e: nat)
    requires i <= e <= |line| && forall j | i <= j < e :: IsSpace(line[j])
    ensures TokensFrom(line, i) == TokensFrom(line, e)
    decreases e - i
  {
    if i < e { BlanksSkipped(line, i + 1, e); }
  }

  lemma GapSkipped(line: Bytes, before: Bytes, gap: Bytes, after: Bytes)
    requires Blank(gap) && line == before + gap + after
    ensures TokensFrom(line, |before|) == TokensFrom(line, |before + gap|)
  {
    var i, e := |before|, |before + gap|;
    forall j | i <= j < e ensures line[j] == gap[j - i] {}
    BlanksSkipped(line, i, e);
  }

  lemma FirstWord(line: Bytes, before: Bytes, word: Bytes, after: Bytes)
    requires IsWord(word) && (after != [] ==> IsSpace(after[0])) && line == before + word + after
    ensures TokensFrom(line, |before|) == [word] + TokensFrom(line, |before + word|)
  {
    var i, e := |before|, |before + word|;
    forall j | i <= j < e ensures line[j] == word[j - i] {}
    assert line[i] == word[0] && (after != [] ==> line[e] == after[0]);
    WordEnds(line, i, e);
    assert line[i..e] == word;
  }

  /** Splitting a line into words undoes joining them. */
  lemma {:induction false} JoinReads(before: Bytes, words: Command, gaps: seq<Bytes>)
    requires |words| == |gaps| && AllWords(words) && AllGaps(gaps)
    ensures TokensFrom(before + Join(words, gaps), |before|) == words
    decreases |words|
  {
    if words != [] {
      var rest := Join(words[1..], gaps[1..]);
      var line, next := before + Join(words, gaps), before + words[0] + gaps[0];
      assert line == next + rest && line == before + words[0] + (gaps[0] + rest);
      assert |words| == 1 ==> rest == [];
      FirstWord(line, before, words[0], gaps[0] + rest);
      GapSkipped(line, before + words[0], gaps[0], rest);
      JoinReads(next, words[1..], gaps[1..]);
      assert [words[0]] + words[1..] == words;
    }
  }

  lemma {:induction false} JoinIsOneLine(words: Command, gaps: seq<Bytes>)
    requires |words| == |gaps| && AllWords(words) && AllGaps(gaps)
    ensures LF !in Join(words, gaps) && (words != [] ==> Join(words, gaps) != [])
  {
    if words != [] {
      JoinIsOneLine(words[1..], gaps[1..]);
      assert LF !in words[0] && LF !in gaps[0];
    }
  }

  /** Only the last gap can lose a byte when the line loses a CR at its end. */
  lemma {:induction false} StripsGap(words: Command, gaps: seq<Bytes>) returns (shorter: seq<Bytes>)
    requires words != [] && |words| == |gaps| && AllWords(words) && AllGaps(gaps)
    ensures |shorter| == |gaps| && AllGaps(shorter) && StripCr(Join(words, gaps)) == Join(words, shorter)
  {
    var rest := Join(words[1..], gaps[1..]);
    if |words| == 1 {
      assert rest == [] && words[0] + gaps[0] + rest == words[0] + gaps[0];
      var w, g := words[0], gaps[0];
      if g != [] && g[|g| - 1] == CR {
        shorter := [g[..|g| - 1]];
        assert (w + g)[..|w + g| - 1] == w + shorter[0] + Join(words[1..], shorter[1..]);
      } else {
        shorter := gaps;
        assert (w + g)[|w + g| - 1] != CR;
      }
    } else {
      var tail := StripsGap(words[1..], gaps[1..]);
      shorter := [gaps[0]] + tail;
      JoinIsOneLine(words[1..], gaps[1..]);
      StripsTail(words[0] + gaps[0], rest);
      assert shorter[1..] == tail;
    }
  }

  lemma StripsTail(front: Bytes, tail: Bytes)
    requires tail != []
    ensures StripCr(front + tail) == front + StripCr(tail)
  {
    assert (front + tail)[..|front + tail| - 1] == front + tail[..|tail| - 1];
  }

  lemma LineTokens(lead: Bytes, words: Command, gaps: seq<Bytes>)
    requires words != [] && |words| == |gaps| && AllWords(words) && AllGaps(gaps) && Blank(lead)
    ensures Tokens(StripCr(lead + Join(words, gaps))) == words
  {
    var shorter := StripsGap(words, gaps);
    JoinIsOneLine(words, gaps);
    StripsTail(lead, Join(words, gaps));
    JoinReads(lead, words, shorter);
    var none: Bytes := [];
    assert none + lead == lead;
    GapSkipped(lead + Join(words, shorter), none, lead, Join(words, shorter));
  }

  lemma TypedLine(line: Bytes, words: Command, rest: Bytes)
    requires LF !in line && line != [] && line[0] != STAR && Tokens(StripCr(line)) == words != []
    ensures ParseCommand(line + [LF] + rest) == Complete(words, rest)
  {
    LineAt(line, rest);
  }

  /** Any number of words on a line, with any blanks before, between and behind them, is read as one command. */
  lemma LineReads(lead: Bytes, words: Command, gaps: seq<Bytes>, rest: Bytes)
    requires words != [] && |words| == |gaps| && AllWords(words) && AllGaps(gaps)
    requires Blank(lead) && (lead == [] ==> words[0][0] != STAR)
    ensures ParseCommand(lead + Join(words, gaps) + [LF] + rest) == Complete(words, rest)
  {
    var line := lead + Join(words, gaps);
    JoinIsOneLine(words, gaps);
    LineTokens(lead, words, gaps);
    assert line[0] == if lead == [] then words[0][0] else lead[0];
    TypedLine(line, words, rest);
  }

  lemma DelIsLogged(words: Command, s: State, m: Moment)
    requires |words| >= 2 && Spells(words[0], "DEL")
    ensures Dispatch(Interpret, s, Issued(words, m)).logged
  {
    ReadsDel(words);
  }

  lemma DelIsText(name: Bytes)
    requires Spells(name, "DEL")
    ensures |name| == 3 && name[0] != STAR
  {
    assert "DEL"[0] == 'D';
  }

  lemma OneAmong(before: seq<Command>, words: Command, after: seq<Command>)
    requires Aof.AllWithinLimits(before) && Aof.AllWithinLimits(after)
    ensures Aof.AllWithinLimits(before + [words] + after) <==> WithinLimits(words)
  {
    var log := before + [words] + after;
    assert log[|before|] == words;
    forall i | 0 <= i < |log| && i != |before| ensures WithinLimits(log[i]) {
      assert log[i] == if i < |before| then before[i] else after[i - |before| - 1];
    }
  }

  /** A DEL typed as a line, whatever its length, is read, performed and logged; a log that holds it loads exactly if
      the words keep to the limits of a frame. */
  lemma TypedLineLogExact(words: Command, gaps: seq<Bytes>, s: State, m: Moment, rest: Bytes,
                          before: seq<Command>, after: seq<Command>)
    requires |words| >= 2 && AllWords(words) && Spells(words[0], "DEL") && |gaps| == |words| && AllGaps(gaps)
    requires Aof.AllWithinLimits(before) && Aof.AllWithinLimits(after)
    ensures ParseCommand(Join(words, gaps) + [LF] + rest) == Complete(words, rest)
    ensures Dispatch(Interpret, s, Issued(words, m)).logged
    ensures Drain(Aof.LogOf(before + [words] + after)).failed <==> |words| > MAX_ARGS || !ArgsFit(words)
  {
    DelIsText(words[0]);
    assert [] + Join(words, gaps) == Join(words, gaps);
    LineReads([], words, gaps, rest);
    DelIsLogged(words, s, m);
    OneAmong(before, words, after);
    Aof.LogLoadsExactly(before + [words] + after);
  }

  /** There are such lines: this one has one word too many. */
  lemma TooManyWords() returns (words: Command)
    ensures |words| == MAX_ARGS + 1 && AllWords(words) && Spells(words[0], "DEL")
  {
    var key: Bytes := [107];
    words := [[68, 69, 76]] + seq(MAX_ARGS, _ => key);
    assert "DEL"[0] == 'D' && "DEL"[1] == 'E' && "DEL"[2] == 'L';
  }
}
