/**
 * Response heads spelled out in characters, independently of the functions that read them (RFC 9112, sections 4 to 6).
 */
module HttpText {
  import opened Prelude
  import opened Sockets
  import opened Chunked
  import opened HttpHead
  import opened Http

  // ----- Decimal numbers -----

  function DigitChar(d: nat): char
    requires d < 10
  {
    ('0' as int + d) as char
  }

  /** The usual digits of a number. */
  function Decimal(n: nat): string {
    (if n < 10 then "" else Decimal(n / 10)) + [DigitChar(n % 10)]
  }

  function Zeros(k: nat): string {
    if k == 0 then "" else Zeros(k - 1) + "0"
  }

  /** The digits of a number, after any number of zeros. */
  ghost predicate Spells(s: string, n: nat) {
    exists k: nat :: s == Zeros(k) + Decimal(n)
  }

  lemma OneMoreDigit(high: string, d: nat)
    requires d < 10
    ensures DigitsValue(high + [DigitChar(d)])
            == if DigitsValue(high).Some? then Some(10 * DigitsValue(high).value + d) else None
  {
    var s := high + [DigitChar(d)];
    assert s[..|s| - 1] == high;
  }

  lemma {:induction false} ZerosValue(k: nat)
    ensures DigitsValue(Zeros(k)) == Some(0)
  {
    if k > 0 {
      ZerosValue(k - 1);
      assert Zeros(k) == Zeros(k - 1) + [DigitChar(0)];
      OneMoreDigit(Zeros(k - 1), 0);
    }
  }

  lemma {:induction false} SpelledValue(k: nat, n: nat)
    ensures DigitsValue(Zeros(k) + Decimal(n)) == Some(n)
    decreases n
  {
    ZerosValue(k);
    LastDigit(k, n);
    hide *;
    if n >= 10 {
      SpelledValue(k, n / 10);
      OneMoreDigit(Zeros(k) + Decimal(n / 10), n % 10);
    } else {
      OneMoreDigit(Zeros(k), n);
    }
  }

  lemma LastDigit(k: nat, n: nat)
    ensures Zeros(k) + Decimal(n) == (if n < 10 then Zeros(k) else Zeros(k) + Decimal(n / 10)) + [DigitChar(n % 10)]
  {
    hide DigitChar, Zeros;
  }

  lemma {:induction false} StartsWithDigit(s: string)
    requires s != "" && DigitsValue(s).Some?
    ensures '0' <= s[0] <= '9'
  {
    if |s| > 1 {
      StartsWithDigit(s[..|s| - 1]);
    }
  }

  /** Digits and one more spell ten times the number and that digit. */
  lemma LongerSpelling(high: string, k: nat, v: nat, d: nat) returns (longer: nat)
    requires d < 10 && (high == "" || high == Zeros(k) + Decimal(v)) && (high == "" ==> v == 0)
    ensures high + [DigitChar(d)] == Zeros(longer) + Decimal(10 * v + d)
  {
    assert (10 * v + d) / 10 == v && (10 * v + d) % 10 == d;
    if high == "" {
      longer := 0;
    } else if v > 0 {
      longer := k;
    } else {
      longer := k + 1;
      assert [DigitChar(0)] == "0";
    }
  }

  /** Digits that have a value are its digits. */
  lemma {:induction false} ValueIsSpelled(s: string) returns (k: nat)
    requires s != "" && DigitsValue(s).Some?
    ensures s == Zeros(k) + Decimal(DigitsValue(s).value)
  {
    var high, c := s[..|s| - 1], s[|s| - 1];
    var v, d := DigitsValue(high).value, c as int - '0' as int;
    assert s == high + [DigitChar(d)];
    assert DigitsValue(s).value == 10 * v + d;
    assert high == "" ==> v == 0;
    hide *;
    k := 0;
    if high != "" {
      k := ValueIsSpelled(high);
    }
    k := LongerSpelling(high, k, v, d);
  }

  lemma SpellsIff(s: string, n: nat)
    ensures s != "" && DigitsValue(s) == Some(n) <==> Spells(s, n)
    ensures Spells(s, n) ==> '0' <= s[0] <= '9'
  {
    if Spells(s, n) {
      var k: nat :| s == Zeros(k) + Decimal(n);
      SpelledValue(k, n);
      hide DigitsValue;
      StartsWithDigit(s);
    } else if s != "" && DigitsValue(s) == Some(n) {
      hide DigitsValue;
      var k := ValueIsSpelled(s);
    }
  }

  /** A number as written in a head: digits, possibly after a plus sign, of a value below the limit of its type. */
  ghost predicate Written(s: string, limit: nat, n: nat) {
    n < limit && (Spells(s, n) || (s != "" && s[0] == '+' && Spells(s[1..], n)))
  }

  lemma NumberIff(s: string, limit: nat, n: nat)
    ensures ParseNumber(s, limit) == Some(n) <==> Written(s, limit, n)
  {
    SpellsIff(s, n);
    if s != "" {
      SpellsIff(s[1..], n);
    }
    hide DigitsValue, Spells;
  }

  // ----- Lines -----

  ghost predicate NoLineFeed(s: string) {
    '\n' !in s
  }

  ghost predicate Plain(lines: seq<string>) {
    forall i :: 0 <= i < |lines| ==> NoLineFeed(lines[i])
  }

  /** Lines as they are sent, each with its ending. */
  function Joined(lines: seq<string>): string {
    if lines == [] then "" else lines[0] + "\r" + "\n" + Joined(lines[1..])
  }

  /** Lines come back as they were joined, whatever they hold but a line feed; so does a last one without an ending. */
  lemma {:induction false} LinesOfJoined(lines: seq<string>, last: string)
    requires Plain(lines) && NoLineFeed(last)
    ensures Lines(Joined(lines) + last) == lines + if last == "" then [] else [last]
    decreases |lines|
  {
    if lines == [] {
      assert Joined(lines) + last == last;
      if last != "" {
        LastLine(last);
      }
    } else {
      JoinedSplits(lines, last);
      hide *;
      FirstWithEnding(lines[0], Joined(lines[1..]) + last);
      LinesOfJoined(lines[1..], last);
      Associative([lines[0]], lines[1..], if last == "" then [] else [last]);
      assert [lines[0]] + lines[1..] == lines;
    }
  }

  lemma Associative(a: seq<string>, b: seq<string>, c: seq<string>)
    ensures a + (b + c) == (a + b) + c
  {
  }

  lemma JoinedSplits(lines: seq<string>, last: string)
    requires lines != [] && Plain(lines)
    ensures Joined(lines) + last == lines[0] + "\r" + "\n" + (Joined(lines[1..]) + last)
    ensures NoLineFeed(lines[0]) && Plain(lines[1..])
  {
    assert NoLineFeed(lines[0]);
  }

  lemma FirstWithEnding(line: string, rest: string)
    requires NoLineFeed(line)
    ensures Lines(line + "\r" + "\n" + rest) == [line] + Lines(rest)
  {
    FirstLine(line + "\r", rest);
    hide Lines;
    assert StripCr(line + "\r") == line;
  }

  /** A line feed alone ends a line too. */
  lemma LineFeedAlone(line: string, rest: string)
    requires NoLineFeed(line) && (line == "" || line[|line| - 1] != '\r')
    ensures Lines(line + "\n" + rest) == [line] + Lines(rest)
  {
    FirstLine(line, rest);
    hide Lines;
  }

  // ----- Words -----

  ghost predicate AllSpace(t: Text, s: string) {
    forall i :: 0 <= i < |s| ==> t.isSpace(s[i])
  }

  ghost predicate NoSpace(t: Text, s: string) {
    forall i :: 0 <= i < |s| ==> !t.isSpace(s[i])
  }

  lemma {:induction false} SpacesSkipped(t: Text, pad: string, rest: string)
    requires AllSpace(t, pad) && (rest == "" || !t.isSpace(rest[0]))
    ensures SkipSpaces(t, pad + rest) == rest
  {
    if pad == "" {
      assert pad + rest == rest;
    } else {
      assert (pad + rest)[1..] == pad[1..] + rest;
      SpacesSkipped(t, pad[1..], rest);
    }
  }

  lemma {:induction false} WordTaken(t: Text, word: string, rest: string)
    requires NoSpace(t, word) && (rest == "" || t.isSpace(rest[0]))
    ensures Word(t, word + rest) == word && SkipWord(t, word + rest) == rest
  {
    if word == "" {
      assert word + rest == rest;
    } else {
      assert (word + rest)[1..] == word[1..] + rest;
      assert word == [word[0]] + word[1..];
      WordTaken(t, word[1..], rest);
    }
  }

  /** A line of words: space or nothing, a first word, space, a second word, and what follows it. */
  ghost predicate TwoWords(t: Text, pad: string, first: string, gap: string, second: string, tail: string) {
    && AllSpace(t, pad) && AllSpace(t, gap) && gap != ""
    && NoSpace(t, first) && first != "" && NoSpace(t, second) && second != ""
    && (tail == "" || t.isSpace(tail[0]))
  }

  lemma SecondWordIs(t: Text, pad: string, first: string, gap: string, second: string, tail: string)
    requires TwoWords(t, pad, first, gap, second, tail)
    ensures SecondWord(t, pad + (first + (gap + (second + tail)))) == Some(second)
  {
    hide SkipSpaces, Word, SkipWord;
    SpacesSkipped(t, pad, first + (gap + (second + tail)));
    WordTaken(t, first, gap + (second + tail));
    SpacesSkipped(t, gap, second + tail);
    WordTaken(t, second, tail);
  }

  lemma NoSecondWord(t: Text, pad: string, first: string, gap: string)
    requires AllSpace(t, pad) && AllSpace(t, gap) && NoSpace(t, first)
    ensures SecondWord(t, pad + (first + gap)) == None
  {
    hide SkipSpaces, Word, SkipWord;
    if first == "" {
      assert pad + (first + gap) == pad + gap + "";
      SpacesSkipped(t, pad + gap, "");
      WordTaken(t, "", "");
    } else {
      SpacesSkipped(t, pad, first + gap);
      WordTaken(t, first, gap);
    }
    assert "" + "" == "" && gap + "" == gap;
    SpacesSkipped(t, gap, "");
    SpacesSkipped(t, "", "");
  }

  /** The status is the number the second word of the first line spells, if it fits sixteen bits. */
  lemma StatusIff(t: Text, head: Bytes, pad: string, version: string, gap: string, code: string, tail: string, n: nat)
    requires TwoWords(t, pad, version, gap, code, tail)
    requires
      var lines := Lines(t.decode(head));
      lines != [] && lines[0] == pad + (version + (gap + (code + tail)))
    ensures StatusCode(t, head) == Some(n) <==> Written(code, 65536, n)
  {
    SecondWordIs(t, pad, version, gap, code, tail);
    NumberIff(code, 65536, n);
    hide SecondWord, ParseNumber, Written, Lines;
  }

  /** No lines, or no second word on the first of them: no status. */
  lemma NoStatus(t: Text, head: Bytes, pad: string, version: string, gap: string)
    requires AllSpace(t, pad) && AllSpace(t, gap) && NoSpace(t, version)
    requires
      var lines := Lines(t.decode(head));
      lines != [] ==> lines[0] == pad + (version + gap)
    ensures StatusCode(t, head) == None
  {
    NoSecondWord(t, pad, version, gap);
    hide SecondWord, Lines;
  }

  /** What is asked of the white-space characters here: digits are not among them. */
  ghost predicate DigitsAreNoSpace(t: Text) {
    forall c | '0' <= c <= '9' :: !t.isSpace(c)
  }

  lemma {:induction false} DigitsNoSpace(t: Text, s: string)
    requires DigitsAreNoSpace(t) && DigitsValue(s).Some?
    ensures NoSpace(t, s)
  {
    if s != "" {
      DigitsNoSpace(t, s[..|s| - 1]);
      assert '0' <= s[|s| - 1] <= '9';
    }
  }

  lemma FirstOfLines(line: string, more: string)
    requires NoLineFeed(line) && line != "" && (more == "" || "\r\n" <= more)
    ensures Lines(line + more) != [] && Lines(line + more)[0] == line
  {
    if more == "" {
      assert line + more == line;
      LastLine(line);
    } else {
      assert line + more == line + "\r" + "\n" + more[2..];
      FirstWithEnding(line, more[2..]);
    }
  }

  /**
   * A status line, `HTTP/1.1 200 OK` for one: a version, space, the digits of the status after any zeros, then nothing
   * or space and anything. Its status is that number, if it fits sixteen bits.
   */
  lemma StatusIs(t: Text, head: Bytes, version: string, gap: string, zeros: nat, n: nat, tail: string, more: string)
    requires DigitsAreNoSpace(t)
    requires NoSpace(t, version) && version != "" && AllSpace(t, gap) && gap != ""
    requires (tail == "" || t.isSpace(tail[0])) && (more == "" || "\r\n" <= more)
    requires
      var line := version + (gap + (Zeros(zeros) + Decimal(n) + tail));
      NoLineFeed(line) && t.decode(head) == line + more
    ensures StatusCode(t, head) == if n < 65536 then Some(n) else None
  {
    var code := Zeros(zeros) + Decimal(n);
    var line := version + (gap + (code + tail));
    assert "" + line == line;
    FirstOfLines(line, more);
    SpelledValue(zeros, n);
    DigitsNoSpace(t, code);
    assert code != "";
    SecondWordIs(t, "", version, gap, code, tail);
    StartsWithDigit(code);
    hide Lines, SecondWord, DigitsValue, DigitsAreNoSpace, NoSpace, AllSpace;
  }

  // ----- Header lines -----

  ghost predicate Trimmed(t: Text, s: string) {
    s == "" || (!t.isSpace(s[0]) && !t.isSpace(s[|s| - 1]))
  }

  lemma {:induction false} TrimEndIs(t: Text, s: string, right: string)
    requires AllSpace(t, right) && (s == "" || !t.isSpace(s[|s| - 1]))
    ensures TrimEnd(t, s + right) == s
  {
    if right == "" {
      assert s + right == s;
    } else {
      assert (s + right)[..|s + right| - 1] == s + right[..|right| - 1];
      TrimEndIs(t, s, right[..|right| - 1]);
    }
  }

  lemma TrimIs(t: Text, left: string, s: string, right: string)
    requires AllSpace(t, left) && AllSpace(t, right) && Trimmed(t, s)
    ensures Trim(t, left + (s + right)) == s
  {
    hide SkipSpaces, TrimEnd;
    if s == "" {
      assert left + (s + right) == (left + right) + "";
      SpacesSkipped(t, left + right, "");
      assert "" + "" == "";
      TrimEndIs(t, "", "");
    } else {
      SpacesSkipped(t, left, s + right);
      TrimEndIs(t, s, right);
    }
  }

  ghost predicate NoColon(s: string) {
    ':' !in s
  }

  lemma {:induction false} ColonAt(before: string, after: string)
    requires NoColon(before)
    ensures ColonIn(before + ":" + after) == Some(|before|)
  {
    if before == "" {
      assert before + ":" + after == ":" + after;
    } else {
      assert (before + ":" + after)[1..] == before[1..] + ":" + after;
      ColonAt(before[1..], after);
    }
  }

  lemma {:induction false} ColonNowhere(s: string)
    requires NoColon(s)
    ensures ColonIn(s) == None
  {
    if s != "" {
      ColonNowhere(s[1..]);
    }
  }

  /** A header line: a name and a value around the first colon, with space around either. */
  function FieldLine(name: string, afterName: string, left: string, value: string, right: string): string {
    (name + afterName) + ":" + (left + (value + right))
  }

  /** What a header line carries: its value if the name is the one asked for; a line without a colon carries nothing. */
  lemma FieldLineIs(t: Text, name: string, afterName: string, left: string, value: string, right: string,
                    wanted: string)
    requires NoColon(name + afterName) && Trimmed(t, name) && Trimmed(t, value)
    requires AllSpace(t, afterName) && AllSpace(t, left) && AllSpace(t, right)
    ensures ValueOf(t, FieldLine(name, afterName, left, value, right), wanted)
            == if SameName(name, wanted) then Some(value) else None
  {
    var line := FieldLine(name, afterName, left, value, right);
    ColonAt(name + afterName, left + (value + right));
    assert line[..|name + afterName|] == "" + (name + afterName);
    assert line[|name + afterName| + 1..] == left + (value + right);
    TrimIs(t, "", name, afterName);
    TrimIs(t, left, value, right);
    hide Trim, SameName, ColonIn, Trimmed, AllSpace;
  }

  lemma NoFieldLine(t: Text, line: string, wanted: string)
    requires NoColon(line)
    ensures ValueOf(t, line, wanted) == None
  {
    ColonNowhere(line);
  }

  /** The same character, or an ASCII letter in its two cases. */
  predicate SameLetter(a: char, b: char) {
    || a == b
    || ('A' <= a <= 'Z' && b as int == a as int - 'A' as int + 'a' as int)
    || ('A' <= b <= 'Z' && a as int == b as int - 'A' as int + 'a' as int)
  }

  lemma SameNameIff(a: string, b: string)
    ensures SameName(a, b) <==> |a| == |b| && forall i :: 0 <= i < |a| ==> SameLetter(a[i], b[i])
  {
    assert forall i | 0 <= i < Min(|a|, |b|) :: SameLetter(a[i], b[i]) <==> Lower(a[i]) == Lower(b[i]);
  }

  // ----- The framing, line by line -----

  /** No line from the second to the one before `n` carries the header. */
  ghost predicate Nowhere(t: Text, lines: seq<string>, n: nat, name: string)
    requires n <= |lines|
  {
    forall i :: 1 <= i < n ==> ValueOf(t, lines[i], name) == None
  }

  /** One of these lines carries the header, with this value, and no other does. */
  ghost predicate OnlyAt(t: Text, lines: seq<string>, n: nat, name: string, j: nat, value: string)
    requires n <= |lines|
  {
    && 1 <= j < n && ValueOf(t, lines[j], name) == Some(value)
    && forall i :: 1 <= i < n && i != j ==> ValueOf(t, lines[i], name) == None
  }

  lemma {:induction false} NoValues(t: Text, lines: seq<string>, name: string, n: nat)
    requires n < |lines|
    ensures Values(t, lines, name, n) == [] <==> Nowhere(t, lines, n + 1, name)
  {
    hide ValueOf;
    if n > 0 {
      NoValues(t, lines, name, n - 1);
    }
  }

  lemma {:induction false} OneValue(t: Text, lines: seq<string>, name: string, n: nat, j: nat, v: string)
    requires n < |lines| && OnlyAt(t, lines, n + 1, name, j, v)
    ensures Values(t, lines, name, n) == [v]
  {
    hide ValueOf;
    if j < n {
      OneValue(t, lines, name, n - 1, j, v);
    } else {
      NoValues(t, lines, name, n - 1);
    }
  }

  lemma {:induction false} WhereValue(t: Text, lines: seq<string>, name: string, n: nat) returns (j: nat)
    requires n < |lines| && |Values(t, lines, name, n)| == 1
    ensures OnlyAt(t, lines, n + 1, name, j, Values(t, lines, name, n)[0])
  {
    hide ValueOf;
    if ValueOf(t, lines[n], name).Some? {
      j := n;
      NoValues(t, lines, name, n - 1);
    } else {
      j := WhereValue(t, lines, name, n - 1);
    }
  }

  /** Exactly one line after the first carries the header, with this value. */
  ghost predicate Only(t: Text, lines: seq<string>, name: string, value: string) {
    exists j :: OnlyAt(t, lines, |lines|, name, j, value)
  }

  lemma ValuesIff(t: Text, lines: seq<string>, name: string)
    ensures AllValues(t, lines, name) == [] <==> Nowhere(t, lines, |lines|, name)
    ensures forall v :: AllValues(t, lines, name) == [v] <==> Only(t, lines, name, v)
  {
    if lines != [] {
      var n := |lines| - 1;
      NoValues(t, lines, name, n);
      hide Values, OnlyAt, Nowhere, ValueOf;
      forall v
        ensures AllValues(t, lines, name) == [v] <==> Only(t, lines, name, v)
      {
        if j :| OnlyAt(t, lines, |lines|, name, j, v) {
          OneValue(t, lines, name, n, j, v);
        } else if Values(t, lines, name, n) == [v] {
          var j := WhereValue(t, lines, name, n);
        }
      }
    }
  }

  ghost predicate Declares(t: Text, lines: seq<string>, n: nat) {
    exists v :: Only(t, lines, "content-length", v) && Written(v, U64_LIMIT, n)
  }

  ghost predicate SaysChunked(t: Text, lines: seq<string>) {
    exists v :: Only(t, lines, "transfer-encoding", v) && SameName(v, "chunked")
  }

  /**
   * The framing, line by line: the length that the only content-length line writes out, when no line is about the
   * transfer encoding; chunked, when the only transfer-encoding line says so and no line gives a length; until the
   * close, when no line carries either. Every other head is refused, and so are bytes that are no text.
   */
  lemma FramingIff(t: Text, head: Bytes)
    ensures
      var lines := Lines(t.decode(head));
      var noLength, noEncoding :=
        Nowhere(t, lines, |lines|, "content-length"), Nowhere(t, lines, |lines|, "transfer-encoding");
      && (forall n: nat ::
            FramingOf(t, head) == Some(Length(n)) <==> t.isUtf8(head) && noEncoding && Declares(t, lines, n))
      && (FramingOf(t, head) == Some(Framing.Chunked) <==> t.isUtf8(head) && noLength && SaysChunked(t, lines))
      && (FramingOf(t, head) == Some(Close) <==> t.isUtf8(head) && noLength && noEncoding)
  {
    var lines := Lines(t.decode(head));
    FramingIs(t, head);
    ValuesIff(t, lines, "content-length");
    ValuesIff(t, lines, "transfer-encoding");
    var encodings, lengths := AllValues(t, lines, "transfer-encoding"), AllValues(t, lines, "content-length");
    hide *;
    DeclaresIff(t, lines, lengths);
    SaysChunkedIff(t, lines, encodings);
  }

  lemma DeclaresIff(t: Text, lines: seq<string>, lengths: seq<string>)
    requires forall v :: lengths == [v] <==> Only(t, lines, "content-length", v)
    ensures forall n: nat ::
              Declares(t, lines, n) <==> |lengths| == 1 && ParseNumber(lengths[0], U64_LIMIT) == Some(n)
  {
    hide ParseNumber, Only, Written;
    forall n: nat
      ensures Declares(t, lines, n) <==> |lengths| == 1 && ParseNumber(lengths[0], U64_LIMIT) == Some(n)
    {
      if |lengths| == 1 {
        assert lengths == [lengths[0]];
        NumberIff(lengths[0], U64_LIMIT, n);
      }
      if v :| Only(t, lines, "content-length", v) && Written(v, U64_LIMIT, n) {
        assert lengths == [v];
      }
    }
  }

  lemma SaysChunkedIff(t: Text, lines: seq<string>, encodings: seq<string>)
    requires forall v :: encodings == [v] <==> Only(t, lines, "transfer-encoding", v)
    ensures SaysChunked(t, lines) <==> ChunkedOnce(encodings)
  {
    hide Only, SameName;
    if |encodings| == 1 {
      assert encodings == [encodings[0]];
    }
    if v :| Only(t, lines, "transfer-encoding", v) && SameName(v, "chunked") {
      assert encodings == [v];
    }
  }

  // ----- Whole responses -----

  /** The head holds no blank line, not even together with the start of the one that ends it. */
  ghost predicate OneHead(head: Bytes) {
    forall i :: 0 <= i < |head| ==> !BlankAt(head + BLANK_LINE, i)
  }

  lemma HeadEnds(head: Bytes, rest: Bytes)
    requires OneHead(head)
    ensures HeaderEnd(head + BLANK_LINE + rest) == Some(|head|)
    ensures (head + BLANK_LINE + rest)[..|head|] == head && (head + BLANK_LINE + rest)[|head| + 4..] == rest
  {
    var block := head + BLANK_LINE;
    assert block[|head|..|head| + 4] == BLANK_LINE;
    HeaderEndIsFirst(block, |head|);
    HeaderEndStays(block, rest);
    hide HeaderEnd;
  }

  /** What follows the blank line is the body: all of it, or as much as the head declares, if there is that much. */
  lemma ReplyIs(t: Text, head: Bytes, rest: Bytes)
    requires OneHead(head)
    ensures
      var status, framing, reply := StatusCode(t, head), FramingOf(t, head), Response(t, head + BLANK_LINE + rest);
      && (status.None? || framing.None? ==> reply == None)
      && (status.Some? && framing == Some(Close) ==> reply == Some(Reply(status.value, rest)))
      && (status.Some? && framing.Some? && framing.value.Length? ==>
            reply == if |rest| < framing.value.n then None else Some(Reply(status.value, rest[..framing.value.n])))
  {
    HeadEnds(head, rest);
    hide StatusCode, FramingOf, HeaderEnd, OneHead;
  }

  /** A chunked body is what its chunks hold, whatever follows it. */
  lemma ChunkedReplyIs(t: Text, head: Bytes, chunks: seq<ChunkText>, zero: ChunkText, trailers: seq<Bytes>, more: Bytes)
    requires OneHead(head) && StatusCode(t, head).Some? && FramingOf(t, head) == Some(Framing.Chunked)
    requires ChunksOk(chunks) && SizeTextOk(zero.digits, zero.extension, 0) && TrailersOk(trailers, MAX_METADATA)
    ensures Response(t, head + BLANK_LINE + (Encode(false, chunks, zero, trailers) + more))
            == Some(Reply(StatusCode(t, head).value, DataOf(chunks)))
  {
    hide StatusCode, FramingOf, HeaderEnd, OneHead, Encode, Decode, ChunksOk, SizeTextOk, TrailersOk, DataOf;
    DecodeEncode(false, chunks, zero, trailers, more);
    HeadEnds(head, Encode(false, chunks, zero, trailers) + more);
  }
}
