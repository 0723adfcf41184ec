/** String helpers shared by the filter: joining, splitting on a delimiter the
    way `String.split` does, ASCII case-insensitive comparison and prefixes. */
module Text {
  import opened Wrappers

  /** The platform line separator, fixed to the Unix value. */
  const SEP: string := "\n"

  /** The parts separated by `sep`, as `String.join` writes them. */
  function Join(parts: seq<string>, sep: string): string
  {
    if |parts| == 0 then ""
    else if |parts| == 1 then parts[0]
    else parts[0] + sep + Join(parts[1..], sep)
  }

  /** The parts written back to back. */
  function Concat(parts: seq<string>): string
  {
    if |parts| == 0 then "" else parts[0] + Concat(parts[1..])
  }

  /** Appending one more part to a non-empty join adds one separator and the part. */
  lemma {:induction false} JoinSnoc(parts: seq<string>, sep: string, last: string)
    requires |parts| > 0
    ensures Join(parts + [last], sep) == Join(parts, sep) + sep + last
  {
    if |parts| == 1 {
      assert parts + [last] == [parts[0], last];
      assert [parts[0], last][1..] == [last];
    } else {
      assert (parts + [last])[1..] == parts[1..] + [last];
      JoinSnoc(parts[1..], sep, last);
    }
  }

  /** Appending one more part to a concatenation appends its text. */
  lemma {:induction false} ConcatSnoc(parts: seq<string>, last: string)
    ensures Concat(parts + [last]) == Concat(parts) + last
  {
    if |parts| == 0 {
      assert parts + [last] == [last];
      assert [last][1..] == [];
    } else {
      assert (parts + [last])[1..] == parts[1..] + [last];
      ConcatSnoc(parts[1..], last);
    }
  }

  /** Every piece of `s` between occurrences of `d`, trailing empty pieces
      included; the input always yields at least one piece. */
  function SplitAll(s: string, d: char): (pieces: seq<string>)
    ensures |pieces| >= 1
    ensures forall i | 0 <= i < |pieces| :: d !in pieces[i]
    decreases |s|
  {
    if |s| == 0 then [""]
    else
      var tail := SplitAll(s[1..], d);
      if s[0] == d then [""] + tail
      else [[s[0]] + tail[0]] + tail[1..]
  }

  /** A string without the delimiter is one piece. */
  lemma {:induction false} SplitAllNoDelimiter(s: string, d: char)
    requires d !in s
    ensures SplitAll(s, d) == [s]
    decreases |s|
  {
    if |s| > 0 {
      assert d !in s[1..] by {
        forall k | 0 <= k < |s[1..]| ensures s[1..][k] != d {
          assert s[1..][k] == s[k + 1];
        }
      }
      SplitAllNoDelimiter(s[1..], d);
      assert [s[0]] + s[1..] == s;
    }
  }

  /** The first piece ends at the first delimiter. */
  lemma {:induction false} SplitAllAfter(a: string, d: char, b: string)
    requires d !in a
    ensures SplitAll(a + [d] + b, d) == [a] + SplitAll(b, d)
    decreases |a|
  {
    var s := a + [d] + b;
    if |a| == 0 {
      assert s == [d] + b;
      assert s[1..] == b;
    } else {
      assert s[1..] == a[1..] + [d] + b;
      assert d !in a[1..] by {
        forall k | 0 <= k < |a[1..]| ensures a[1..][k] != d {
          assert a[1..][k] == a[k + 1];
        }
      }
      SplitAllAfter(a[1..], d, b);
      assert [a[0]] + a[1..] == a;
    }
  }

  /** Splitting and re-joining with the delimiter gives back the input. */
  lemma {:induction false} JoinSplitAll(s: string, d: char)
    ensures Join(SplitAll(s, d), [d]) == s
    decreases |s|
  {
    if |s| > 0 {
      var tail := SplitAll(s[1..], d);
      JoinSplitAll(s[1..], d);
      if s[0] == d {
        assert ([""] + tail)[1..] == tail;
      } else {
        var pieces := [[s[0]] + tail[0]] + tail[1..];
        if |tail| == 1 {
          assert Join(tail, [d]) == tail[0];
        } else {
          assert pieces[1..] == tail[1..];
          assert Join(tail, [d]) == tail[0] + [d] + Join(tail[1..], [d]);
        }
        assert [s[0]] + s[1..] == s;
      }
    }
  }

  /** Joining pieces that hold no delimiter and splitting again gives back the pieces. */
  lemma {:induction false} SplitAllJoin(parts: seq<string>, d: char)
    requires |parts| >= 1
    requires forall i | 0 <= i < |parts| :: d !in parts[i]
    ensures SplitAll(Join(parts, [d]), d) == parts
    decreases |parts|
  {
    if |parts| == 1 {
      SplitAllNoDelimiter(parts[0], d);
    } else {
      SplitAllJoin(parts[1..], d);
      SplitAllAfter(parts[0], d, Join(parts[1..], [d]));
      assert [parts[0]] + parts[1..] == parts;
    }
  }

  /** The pieces without their trailing empty strings, as `String.split` returns them. */
  function DropTrailingEmpty(pieces: seq<string>): (kept: seq<string>)
    ensures kept <= pieces
    ensures |kept| == 0 || kept[|kept| - 1] != ""
    ensures forall i | |kept| <= i < |pieces| :: pieces[i] == ""
  {
    if |pieces| == 0 then []
    else if pieces[|pieces| - 1] == "" then DropTrailingEmpty(pieces[..|pieces| - 1])
    else pieces
  }

  /** Putting a piece in front changes the kept pieces only by that piece. */
  lemma {:induction false} DropTrailingEmptyCons(first: string, rest: seq<string>)
    ensures DropTrailingEmpty([first] + rest)
         == if DropTrailingEmpty(rest) == [] then DropTrailingEmpty([first]) else [first] + DropTrailingEmpty(rest)
    decreases |rest|
  {
    var all := [first] + rest;
    if |rest| == 0 {
      assert all == [first];
    } else if rest[|rest| - 1] == "" {
      assert all[..|all| - 1] == [first] + rest[..|rest| - 1];
      DropTrailingEmptyCons(first, rest[..|rest| - 1]);
    }
  }

  /** ASCII lower-casing; other characters are left alone. */
  function ToLowerAscii(c: char): char
  {
    if 'A' <= c <= 'Z' then (c as int + 32) as char else c
  }

  /** Equal up to ASCII letter case, as `String.equalsIgnoreCase` compares the
      ASCII constants this filter uses. */
  predicate EqualsIgnoreCase(a: string, b: string)
  {
    |a| == |b| && forall i | 0 <= i < |a| :: ToLowerAscii(a[i]) == ToLowerAscii(b[i])
  }

  /** `StringUtils.startsWith`: a null string starts with nothing. */
  predicate StartsWith(s: Option<string>, prefix: string)
  {
    s.Some? && prefix <= s.value
  }
}
