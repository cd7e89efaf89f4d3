/** The response head: status line, body framing, and why the blank line that ends it may be included or not. */
module HttpHead {
  import opened Prelude
  import opened Sockets

  /** What is taken from the standard library: UTF-8 decoding and the white-space characters. */
  datatype Text = Text(isUtf8: Bytes -> bool, decode: Bytes -> string, isSpace: char -> bool) {
    /** A blank line after some bytes neither repairs nor spoils them. */
    ghost predicate Lawful() {
      forall h: Bytes ::
        isUtf8(h + BLANK_LINE) == isUtf8(h) && decode(h + BLANK_LINE) == decode(h) + "\r\n\r\n"
    }
  }

  function NewlineIn(s: string): (at: Option<nat>)
    ensures at.Some? ==> at.value < |s| && s[at.value] == '\n' && '\n' !in s[..at.value]
    ensures at.None? ==> '\n' !in s
  {
    if s == "" then None
    else if s[0] == '\n' then Some(0)
    else
      var later := NewlineIn(s[1..]);
      assert s == [s[0]] + s[1..];
      if later.None? then None else Some(later.value + 1)
  }

  function StripCr(s: string): string {
    if s != "" && s[|s| - 1] == '\r' then s[..|s| - 1] else s
  }

  /** Lines without their endings; a last piece without one is a line as it stands. */
  function Lines(s: string): seq<string>
    decreases |s|
  {
    var at := NewlineIn(s);
    if s == "" then []
    else if at.None? then [s]
    else [StripCr(s[..at.value])] + Lines(s[at.value + 1..])
  }

  // ----- The status code -----

  function SkipSpaces(t: Text, s: string): string {
    if s != "" && t.isSpace(s[0]) then SkipSpaces(t, s[1..]) else s
  }

  function Word(t: Text, s: string): string {
    if s == "" || t.isSpace(s[0]) then "" else [s[0]] + Word(t, s[1..])
  }

  function SkipWord(t: Text, s: string): string {
    if s == "" || t.isSpace(s[0]) then s else SkipWord(t, s[1..])
  }

  function SecondWord(t: Text, s: string): Option<string> {
    var after := SkipSpaces(t, SkipWord(t, SkipSpaces(t, s)));
    if after == "" then None else Some(Word(t, after))
  }

  function DigitsValue(s: string): Option<nat> {
    if s == "" then Some(0)
    else
      var high, c := DigitsValue(s[..|s| - 1]), s[|s| - 1];
      if high.None? || !('0' <= c <= '9') then None else Some(10 * high.value + (c as int - '0' as int))
  }

  /** An unsigned number as the standard library parses it: an optional plus sign, then at least one digit. */
  function ParseNumber(s: string, limit: nat): Option<nat> {
    var digits := if s != "" && s[0] == '+' then s[1..] else s;
    var value := DigitsValue(digits);
    if digits == "" || value.None? || value.value >= limit then None else value
  }

  function StatusOfLines(t: Text, lines: seq<string>): Option<nat> {
    if lines == [] || SecondWord(t, lines[0]).None? then None
    else ParseNumber(SecondWord(t, lines[0]).value, 65536)
  }

  function StatusCode(t: Text, head: Bytes): Option<nat> {
    StatusOfLines(t, Lines(t.decode(head)))
  }

  // ----- The body framing -----

  datatype Framing = Close | Length(n: nat) | Chunked

  /** What the header lines seen so far say about the body. */
  datatype Scan = Scan(length: Option<nat>, chunked: bool)

  function ColonIn(s: string): (at: Option<nat>)
    ensures at.Some? ==> at.value < |s|
  {
    if s == "" then None
    else if s[0] == ':' then Some(0)
    else
      var later := ColonIn(s[1..]);
      if later.None? then None else Some(later.value + 1)
  }

  function TrimEnd(t: Text, s: string): string {
    if s != "" && t.isSpace(s[|s| - 1]) then TrimEnd(t, s[..|s| - 1]) else s
  }

  function Trim(t: Text, s: string): string {
    TrimEnd(t, SkipSpaces(t, s))
  }

  function Lower(c: char): char {
    if 'A' <= c <= 'Z' then (c as int + 32) as char else c
  }

  predicate SameName(a: string, b: string) {
    |a| == |b| && forall i :: 0 <= i < |a| ==> Lower(a[i]) == Lower(b[i])
  }

  /** One header line; `None` is a head that must be refused. */
  function ScanLine(t: Text, scan: Scan, line: string): Option<Scan> {
    var at := ColonIn(line);
    if at.None? then Some(scan)
    else
      var name, value := Trim(t, line[..at.value]), Trim(t, line[at.value + 1..]);
      if SameName(name, "transfer-encoding") then
        if scan.chunked || !SameName(value, "chunked") then None else Some(scan.(chunked := true))
      else if SameName(name, "content-length") then
        var length := ParseNumber(value, U64_LIMIT);
        if length.None? || scan.length.Some? then None else Some(scan.(length := length))
      else Some(scan)
  }

  /** The scan of the first `n` lines after the status line. */
  function ScanLines(t: Text, lines: seq<string>, n: nat): Option<Scan>
    requires n < |lines|
  {
    if n == 0 then Some(Scan(None, false))
    else
      var before := ScanLines(t, lines, n - 1);
      if before.None? then None else ScanLine(t, before.value, lines[n])
  }

  function Conclude(scan: Scan): Option<Framing> {
    if scan.chunked && scan.length.Some? then None
    else if scan.chunked then Some(Chunked)
    else if scan.length.Some? then Some(Length(scan.length.value))
    else Some(Close)
  }

  function FramingOfLines(t: Text, lines: seq<string>): Option<Framing> {
    var scan := if lines == [] then Some(Scan(None, false)) else ScanLines(t, lines, |lines| - 1);
    if scan.None? then None else Conclude(scan.value)
  }

  function FramingOf(t: Text, head: Bytes): Option<Framing> {
    if !t.isUtf8(head) then None else FramingOfLines(t, Lines(t.decode(head)))
  }

  /** The scan over the lines, giving up at the first that must be refused. */
  method ParseBodyFraming(t: Text, head: Bytes) returns (r: Result<Framing>)
    ensures r.ToOption() == FramingOf(t, head)
  {
    if !t.isUtf8(head) {
      return Err(Invalid);
    }
    var lines := Lines(t.decode(head));
    var scan := Scan(None, false);
    hide ScanLine;
    for i := 1 to Max(|lines|, 1)
      invariant i <= |lines| ==> ScanLines(t, lines, i - 1) == Some(scan)
      invariant |lines| == 0 ==> scan == Scan(None, false)
    {
      hide ScanLine;
      var next := ScanLine(t, scan, lines[i]);
      if next.None? {
        ScanFails(t, lines, i, |lines| - 1);
        return Err(Invalid);
      }
      scan := next.value;
    }
    var framing := Conclude(scan);
    return if framing.Some? then Ok(framing.value) else Err(Invalid);
  }

  lemma {:induction false} ScanFails(t: Text, lines: seq<string>, i: nat, n: nat)
    requires i <= n < |lines| && ScanLines(t, lines, i) == None
    ensures ScanLines(t, lines, n) == None
  {
    if i < n {
      ScanFails(t, lines, i, n - 1);
    }
  }

  // ----- What the framing says about the header lines -----

  /** The value of a header line if it carries the header of that name. */
  function ValueOf(t: Text, line: string, name: string): Option<string> {
    var at := ColonIn(line);
    if at.None? || !SameName(Trim(t, line[..at.value]), name) then None else Some(Trim(t, line[at.value + 1..]))
  }

  /** The values of a header in the first `n` lines after the status line. */
  function Values(t: Text, lines: seq<string>, name: string, n: nat): seq<string>
    requires n <= |lines| && (lines != [] ==> n < |lines|)
  {
    if n == 0 then []
    else Values(t, lines, name,
                n - 1) + (var value := ValueOf(t, lines[n], name); if value.None? then [] else [value.value])
  }

  function AllValues(t: Text, lines: seq<string>, name: string): seq<string> {
    Values(t, lines, name, if lines == [] then 0 else |lines| - 1)
  }

  predicate ChunkedOnce(encodings: seq<string>) {
    |encodings| == 1 && SameName(encodings[0], "chunked")
  }

  predicate LengthOnce(lengths: seq<string>) {
    |lengths| == 1 && ParseNumber(lengths[0], U64_LIMIT).Some?
  }

  /** The scan has met each header at most once and well formed, or it was given up. */
  lemma {:induction false} ScanCollects(t: Text, lines: seq<string>, n: nat)
    requires n < |lines|
    ensures
      var encodings, lengths := Values(t, lines, "transfer-encoding", n), Values(t, lines, "content-length", n);
      ScanLines(t, lines, n)
      == if (encodings == [] || ChunkedOnce(encodings)) && (lengths == [] || LengthOnce(lengths))
         then Some(Scan(if lengths == [] then None else ParseNumber(lengths[0], U64_LIMIT), encodings != []))
         else None
  {
    if n > 0 {
      ScanCollects(t, lines, n - 1);
      hide Trim, ColonIn, ParseNumber;
      var at := ColonIn(lines[n]);
      if at.Some? && SameName(Trim(t, lines[n][..at.value]), "transfer-encoding") {
        assert ValueOf(t, lines[n], "content-length") == None;
      }
    }
  }

  /**
   * The four outcomes: a length for exactly one well-formed content-length line and no transfer-encoding, chunked for
   * exactly one transfer-encoding line that says so and no content-length, until the close for neither header, and a
   * refusal for everything else, bytes that are no text included.
   */
  lemma FramingIs(t: Text, head: Bytes)
    ensures
      var lines := Lines(t.decode(head));
      var encodings, lengths := AllValues(t, lines, "transfer-encoding"), AllValues(t, lines, "content-length");
      && (forall n: nat :: FramingOf(t, head) == Some(Length(n)) <==>
            t.isUtf8(head) && encodings == [] && |lengths| == 1 && ParseNumber(lengths[0], U64_LIMIT) == Some(n))
      && (FramingOf(t, head) == Some(Chunked) <==> t.isUtf8(head) && lengths == [] && ChunkedOnce(encodings))
      && (FramingOf(t, head) == Some(Close) <==> t.isUtf8(head) && lengths == [] && encodings == [])
  {
    var lines := Lines(t.decode(head));
    if lines != [] {
      ScanCollects(t, lines, |lines| - 1);
    }
    hide Lines, SameName, ParseNumber;
  }

  // ----- The blank line makes no difference -----

  lemma NewlineAfter(text: string, rest: string)
    requires '\n' !in text
    ensures NewlineIn(text + "\n" + rest) == Some(|text|)
  {
    var s := text + "\n" + rest;
    assert forall i | 0 <= i < |text| :: s[i] == text[i] && text[i] != '\n';
    assert s[|text|] == '\n';
  }

  lemma FirstLine(text: string, rest: string)
    requires '\n' !in text
    ensures Lines(text + "\n" + rest) == [StripCr(text)] + Lines(rest)
  {
    NewlineAfter(text, rest);
    var s := text + "\n" + rest;
    assert s[..|text|] == text && s[|text| + 1..] == rest;
  }

  lemma BlankLines()
    ensures Lines("\r\n") == [""] && Lines("\r\n\r\n") == ["", ""]
  {
    assert Lines("") == [] && StripCr("\r") == "";
    hide *;
    FirstLine("\r", "");
    FirstLine("\r", "\r\n");
    assert "\r" + "\n" + "" == "\r\n" && "\r" + "\n" + "\r\n" == "\r\n\r\n";
  }

  lemma LastLine(s: string)
    requires '\n' !in s && s != ""
    ensures Lines(s) == [s] && Lines(s + "\r\n\r\n") == [s, ""]
  {
    assert Lines(s) == [s];
    hide *;
    FirstLine(s + "\r", "\r\n");
    BlankLines();
    JoinBlank(s);
  }

  lemma JoinBlank(s: string)
    ensures s + "\r" + "\n" + "\r\n" == s + "\r\n\r\n" && StripCr(s + "\r") == s
  {
  }

  /** Appending a blank line adds empty lines and changes none. */
  lemma {:induction false} BlankLineAdds(s: string)
    ensures Lines(s + "\r\n\r\n") == Lines(s) + [""] || Lines(s + "\r\n\r\n") == Lines(s) + ["", ""]
    decreases |s|
  {
    var at := NewlineIn(s);
    if s == "" {
      BlankLines();
      assert s + "\r\n\r\n" == "\r\n\r\n";
    } else if at.None? {
      LastLine(s);
    } else {
      var line, rest := s[..at.value], s[at.value + 1..];
      FirstLine(line, rest);
      FirstLine(line, rest + "\r\n\r\n");
      SplitLine(s, at.value, "\r\n\r\n");
      BlankLineAdds(rest);
      hide *;
      JoinLines(StripCr(line), Lines(rest), [""]);
      JoinLines(StripCr(line), Lines(rest), ["", ""]);
    }
  }

  lemma SplitLine(s: string, at: nat, blank: string)
    requires at < |s| && s[at] == '\n'
    ensures s == s[..at] + "\n" + s[at + 1..]
    ensures s + blank == s[..at] + "\n" + (s[at + 1..] + blank)
  {
    assert s == s[..at] + [s[at]] + s[at + 1..];
  }

  lemma JoinLines(first: string, others: seq<string>, more: seq<string>)
    ensures [first] + (others + more) == ([first] + others) + more
  {
  }

  lemma {:induction false} ScanIgnoresMore(t: Text, lines: seq<string>, more: seq<string>, n: nat)
    requires n < |lines|
    ensures ScanLines(t, lines + more, n) == ScanLines(t, lines, n)
  {
    if n > 0 {
      ScanIgnoresMore(t, lines, more, n - 1);
    }
  }

  lemma EmptyLineIgnored(t: Text, lines: seq<string>)
    ensures StatusOfLines(t, lines + [""]) == StatusOfLines(t, lines)
    ensures FramingOfLines(t, lines + [""]) == FramingOfLines(t, lines)
  {
    var more := lines + [""];
    if lines == [] {
      assert more == [""];
    } else {
      ScanIgnoresMore(t, lines, [""], |lines| - 1);
      assert more[|lines|] == "";
      assert more[0] == lines[0];
      hide SecondWord, ParseNumber;
    }
  }

  /** The head means the same with and without the blank line that ends it. */
  lemma BlankLineIgnored(t: Text, head: Bytes)
    requires t.Lawful()
    ensures StatusCode(t, head + BLANK_LINE) == StatusCode(t, head)
    ensures FramingOf(t, head + BLANK_LINE) == FramingOf(t, head)
  {
    var lines := Lines(t.decode(head));
    BlankLineAdds(t.decode(head));
    EmptyLineIgnored(t, lines);
    EmptyLineIgnored(t, lines + [""]);
    assert (lines + [""]) + [""] == lines + ["", ""];
    hide Lines, StatusOfLines, FramingOfLines;
  }
}
