/** The text side of `getReader()`: decoding the buffered bytes and
    `BufferedReader.readLine`, which ends a line at `\n`, at `\r`, or at the
    pair `\r\n`, and returns null once the text is used up. */
module LineReader {
  import opened Wrappers
  import opened Text
  import opened Servlet

  /** The body as text, one character per byte (exact for ASCII bodies). */
  function Decode(bytes: seq<byte>): (text: string)
    ensures |text| == |bytes|
    ensures forall i | 0 <= i < |bytes| :: text[i] as int == bytes[i] as int
  {
    seq(|bytes|, i requires 0 <= i < |bytes| => bytes[i] as int as char)
  }

  predicate IsTerminator(c: char)
  {
    c == '\n' || c == '\r'
  }

  /** The line endings `readLine` accepts; the empty one stands for the end of the text. */
  predicate IsLineEnd(t: string)
  {
    t == "" || t == "\n" || t == "\r" || t == "\r\n"
  }

  /** The text with every line-terminator character removed. */
  function StripTerminators(text: string): (r: string)
    ensures |r| <= |text|
    ensures forall i | 0 <= i < |r| :: !IsTerminator(r[i])
  {
    if |text| == 0 then ""
    else if IsTerminator(text[0]) then StripTerminators(text[1..])
    else [text[0]] + StripTerminators(text[1..])
  }

  /** How many characters precede the first line terminator. */
  function LineLength(text: string): (n: nat)
    ensures n <= |text|
    ensures forall i | 0 <= i < n :: !IsTerminator(text[i])
    ensures n < |text| ==> IsTerminator(text[n])
  {
    if |text| == 0 || IsTerminator(text[0]) then 0 else 1 + LineLength(text[1..])
  }

  /** The length of the line ending found at `n`: none at the end of the
      text, two for `\r\n`, one otherwise. */
  function EndLength(text: string, n: nat): (e: nat)
    requires n <= |text|
    ensures n + e <= |text|
    ensures IsLineEnd(text[n..n + e])
  {
    if n == |text| then 0
    else if text[n] == '\r' && n + 1 < |text| && text[n + 1] == '\n' then 2
    else if IsTerminator(text[n]) then 1
    else 0
  }

  /** Splits off the first line and the text after its line ending; a `\r`
      swallows an immediately following `\n`. */
  function TakeLine(text: string): (r: (string, string))
    ensures |r.0| + |r.1| <= |text|
    ensures forall i | 0 <= i < |r.0| :: !IsTerminator(r.0[i])
    ensures text == r.0 + text[|r.0|..|text| - |r.1|] + r.1
    ensures IsLineEnd(text[|r.0|..|text| - |r.1|])
    ensures text[|r.0|..|text| - |r.1|] == "" ==> r.1 == ""
    ensures text[|r.0|..|text| - |r.1|] == "\r" ==> r.1 == "" || r.1[0] != '\n'
    ensures |text| > 0 ==> |r.1| < |text|
  {
    var n := LineLength(text);
    var e := EndLength(text, n);
    assert text == text[..n] + text[n..n + e] + text[n + e..];
    (text[..n], text[n + e..])
  }

  /** `readLine()` on the unread text: null at the end, otherwise the line and what follows it. */
  function ReadLine(text: string): (r: Option<(string, string)>)
    ensures r.None? <==> text == ""
  {
    if |text| == 0 then None else Some(TakeLine(text))
  }

  /** Every line `readLine` returns before it returns null. */
  function Lines(text: string): seq<string>
    decreases |text|
  {
    if |text| == 0 then [] else [TakeLine(text).0] + Lines(TakeLine(text).1)
  }

  /** Stripping distributes over concatenation. */
  lemma {:induction false} StripAppend(a: string, b: string)
    ensures StripTerminators(a + b) == StripTerminators(a) + StripTerminators(b)
    decreases |a|
  {
    if |a| > 0 {
      assert (a + b)[1..] == a[1..] + b;
      StripAppend(a[1..], b);
    } else {
      assert a + b == b;
    }
  }

  /** A text without terminators is left as it is. */
  lemma {:induction false} StripPlain(a: string)
    requires forall i | 0 <= i < |a| :: !IsTerminator(a[i])
    ensures StripTerminators(a) == a
    decreases |a|
  {
    if |a| > 0 {
      StripPlain(a[1..]);
      assert [a[0]] + a[1..] == a;
    }
  }

  /** Taking one line keeps every non-terminator character: the line, then what follows. */
  lemma StripTakeLine(text: string)
    ensures StripTerminators(text) == TakeLine(text).0 + StripTerminators(TakeLine(text).1)
  {
    var (line, rest) := TakeLine(text);
    var gap := text[|line|..|text| - |rest|];
    StripAppend(line + gap, rest);
    StripAppend(line, gap);
    StripPlain(line);
    assert StripTerminators(gap) == "" by {
      if |gap| == 2 { assert gap[1..] == "\n"; }
    }
  }

  /** One `readLine` call keeps the line's characters and consumes input. */
  lemma ReadLineStep(text: string)
    requires ReadLine(text).Some?
    ensures StripTerminators(text) == ReadLine(text).value.0 + StripTerminators(ReadLine(text).value.1)
    ensures |ReadLine(text).value.1| < |text|
  {
    StripTakeLine(text);
  }

  /** Concatenating the lines gives the text without its line terminators. */
  lemma {:induction false} ConcatLines(text: string)
    ensures Concat(Lines(text)) == StripTerminators(text)
    decreases |text|
  {
    if |text| > 0 {
      var (line, rest) := TakeLine(text);
      ConcatLines(rest);
      StripTakeLine(text);
      assert ([line] + Lines(rest))[1..] == Lines(rest);
    }
  }
}
