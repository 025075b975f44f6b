/**
 * The non-printable character scan (`find_binary_characters`) and the check
 * built on it (`check_for_binary_content`). The scan walks the raw feed text
 * once, left to right, and records every character below code point 32 other than
 * newline, carriage return and tab, the two non-characters U+FFFE and U+FFFF,
 * and the replacement character U+FFFD. The check turns each record into a
 * location with a 40-character context window and raises when there is any.
 */
module BinaryScan {
  import opened Optional
  import opened Outcomes

  const ReplacementLabel: string := "\\uFFFD (Unicode replacement character)"
  const BinaryMessage: string := "Binary or non-printable characters found in XML content"
  /** How far the context window reaches on each side of a finding. */
  const ContextRadius: nat := 20

  /** The three kinds of character the scan reports, stated independently of its branch order. */
  predicate NonPrintable(c: char)
  {
    || (c as int < 32 && c != '\n' && c != '\r' && c != '\t')
    || c as int == 0xFFFE || c as int == 0xFFFF
    || c as int == 0xFFFD
  }

  /** A lowercase hexadecimal digit for `d < 16`. */
  function HexDigit(d: nat): (c: char)
    requires d < 16
  {
    "0123456789abcdef"[d]
  }

  /** The value of a lowercase hexadecimal digit. */
  function DigitValue(c: char): (d: nat)
    ensures d < 16
  {
    if '0' <= c <= '9' then c as int - '0' as int
    else if 'a' <= c <= 'f' then c as int - 'a' as int + 10
    else 0
  }

  predicate IsLowerHex(c: char)
  {
    ('0' <= c <= '9') || ('a' <= c <= 'f')
  }

  /** Two lowercase hex digits for a byte value, high digit first. */
  function Hex2(b: nat): (r: string)
    requires b < 0x100
    ensures |r| == 2 && IsLowerHex(r[0]) && IsLowerHex(r[1])
  {
    [HexDigit(b / 16), HexDigit(b % 16)]
  }

  /** Python's `f"{n:04x}"` for `n` below 0x10000: four lowercase digits, zero-padded. */
  function Hex4(n: nat): (r: string)
    requires n < 0x10000
    ensures |r| == 4 && forall i :: 0 <= i < 4 ==> IsLowerHex(r[i])
  {
    Hex2(n / 0x100) + Hex2(n % 0x100)
  }

  /** The number two hexadecimal digits spell. */
  function Hex2Value(s: string): (n: nat)
    requires |s| == 2
    ensures n < 0x100
  {
    DigitValue(s[0]) * 16 + DigitValue(s[1])
  }

  /** The number four hexadecimal digits spell. */
  function HexValue(s: string): (n: nat)
    requires |s| == 4
    ensures n < 0x10000
  {
    Hex2Value(s[..2]) * 0x100 + Hex2Value(s[2..])
  }

  lemma DigitRoundTrip(d: nat)
    requires d < 16
    ensures DigitValue(HexDigit(d)) == d
  {
  }

  lemma Hex2RoundTrip(b: nat)
    requires b < 0x100
    ensures Hex2Value(Hex2(b)) == b
  {
    DigitRoundTrip(b / 16);
    DigitRoundTrip(b % 16);
  }

  /** The four digits read back as the number they were written from. */
  lemma Hex4RoundTrip(n: nat)
    requires n < 0x10000
    ensures HexValue(Hex4(n)) == n
  {
    var h := Hex4(n);
    assert h[..2] == Hex2(n / 0x100) && h[2..] == Hex2(n % 0x100);
    Hex2RoundTrip(n / 0x100);
    Hex2RoundTrip(n % 0x100);
  }

  /**
   * The display form the scan records for `c`, following its if/elif chain:
   * `\u` and the code point as four lowercase hex digits for a code point
   * below 32 (other than newline, carriage return and tab) or U+FFFE/U+FFFF,
   * a fixed label for U+FFFD, nothing otherwise.
   */
  function Display(c: char): Option<string>
  {
    if c as int < 32 && c !in "\n\r\t" then Some("\\u" + Hex4(c as int))
    else if c as int == 0xFFFF || c as int == 0xFFFE then Some("\\u" + Hex4(c as int))
    else if c == '\U{FFFD}' then Some(ReplacementLabel)
    else None
  }

  /** The scan flags exactly the non-printable characters, with the display form described above. */
  lemma DisplayFlagsExactly(c: char)
    ensures Display(c).Some? <==> NonPrintable(c)
    ensures NonPrintable(c) && c as int != 0xFFFD ==>
      var d := Display(c).value;
      |d| == 6 && d[..2] == "\\u" && HexValue(d[2..]) == c as int &&
      forall i :: 2 <= i < 6 ==> IsLowerHex(d[i])
    ensures c as int == 0xFFFD ==> Display(c) == Some(ReplacementLabel)
  {
    if NonPrintable(c) && c as int != 0xFFFD {
      var d := Display(c).value;
      assert d[2..] == Hex4(c as int);
      Hex4RoundTrip(c as int);
    }
  }

  /** One record of the scan: position, the character itself, its display form. */
  datatype Finding = Finding(position: nat, character: char, display: string)

  /** The records the scan has made after reading the first `n` characters of `s`. */
  function FindingsUpTo(s: string, n: nat): seq<Finding>
    requires n <= |s|
  {
    if n == 0 then []
    else FindingsUpTo(s, n - 1) +
         match Display(s[n - 1])
         case Some(d) => [Finding(n - 1, s[n - 1], d)]
         case None => []
  }

  /** Everything the scan records for `s`. */
  function Findings(s: string): seq<Finding>
  {
    FindingsUpTo(s, |s|)
  }

  /** The records after `n` characters extend those after `n - 1` by at most the record for position `n - 1`. */
  lemma FindingsUpToStep(s: string, n: nat)
    requires 0 < n <= |s|
    ensures var prev, f := FindingsUpTo(s, n - 1), FindingsUpTo(s, n);
      && (forall k :: 0 <= k < |prev| ==> f[k] == prev[k])
      && (Display(s[n - 1]).None? ==> f == prev)
      && (Display(s[n - 1]).Some? ==>
            f == prev + [Finding(n - 1, s[n - 1], Display(s[n - 1]).value)])
  {
  }

  /** Each record made among the first `n` characters names a flagged position below `n`, with its character and display form. */
  lemma {:induction false} FindingsUpToSound(s: string, n: nat)
    requires n <= |s|
    ensures var f := FindingsUpTo(s, n);
      forall k :: 0 <= k < |f| ==>
        f[k].position < n && f[k].character == s[f[k].position] &&
        Display(s[f[k].position]) == Some(f[k].display)
  {
    if n > 0 {
      FindingsUpToSound(s, n - 1);
      FindingsUpToStep(s, n);
      var prev := FindingsUpTo(s, n - 1);
      var f := FindingsUpTo(s, n);
      forall k | 0 <= k < |f|
        ensures f[k].position < n && f[k].character == s[f[k].position] &&
                Display(s[f[k].position]) == Some(f[k].display)
      {
        if k < |prev| {
          assert f[k] == prev[k];
        } else {
          assert f[k] == Finding(n - 1, s[n - 1], Display(s[n - 1]).value);
        }
      }
    }
  }

  /** The records are in strictly increasing position order. */
  lemma {:induction false} FindingsUpToSorted(s: string, n: nat)
    requires n <= |s|
    ensures var f := FindingsUpTo(s, n);
      forall k, l :: 0 <= k < l < |f| ==> f[k].position < f[l].position
  {
    if n > 0 {
      FindingsUpToSorted(s, n - 1);
      FindingsUpToSound(s, n - 1);
      FindingsUpToStep(s, n);
    }
  }

  /** Every flagged position among the first `n` characters has a record. */
  lemma {:induction false} FindingsUpToComplete(s: string, n: nat)
    requires n <= |s|
    ensures var f := FindingsUpTo(s, n);
      forall i :: 0 <= i < n && Display(s[i]).Some? ==>
        exists k :: 0 <= k < |f| && f[k].position == i
  {
    if n > 0 {
      FindingsUpToComplete(s, n - 1);
      FindingsUpToStep(s, n);
      var prev := FindingsUpTo(s, n - 1);
      var f := FindingsUpTo(s, n);
      forall i | 0 <= i < n && Display(s[i]).Some?
        ensures exists k :: 0 <= k < |f| && f[k].position == i
      {
        if i < n - 1 {
          var k :| 0 <= k < |prev| && prev[k].position == i;
          assert f[k] == prev[k];
        } else {
          assert f[|f| - 1].position == i;
        }
      }
    }
  }

  /** Records with strictly increasing positions, all in `[lo, hi)`, number at most `hi - lo`. */
  lemma {:induction false} IncreasingWithin(f: seq<Finding>, lo: nat, hi: nat)
    requires lo <= hi
    requires forall k :: 0 <= k < |f| ==> lo <= f[k].position < hi
    requires forall k, l :: 0 <= k < l < |f| ==> f[k].position < f[l].position
    ensures |f| <= hi - lo
  {
    if f != [] {
      assert forall k :: 0 <= k < |f[1..]| ==> f[0].position < f[1..][k].position;
      IncreasingWithin(f[1..], f[0].position + 1, hi);
    }
  }

  /**
   * `find_binary_characters` reports position `i` exactly when `s[i]` is
   * non-printable; its records are in strictly increasing position order and
   * each carries the character at its position, so there are at most `|s|`.
   */
  lemma FindingsCharacterization(s: string)
    ensures var f := Findings(s);
      && |f| <= |s|
      && (forall k :: 0 <= k < |f| ==>
            f[k].position < |s| && f[k].character == s[f[k].position] &&
            NonPrintable(f[k].character) && Display(f[k].character) == Some(f[k].display))
      && (forall k, l :: 0 <= k < l < |f| ==> f[k].position < f[l].position)
      && (forall i :: 0 <= i < |s| ==>
            (NonPrintable(s[i]) <==> exists k :: 0 <= k < |f| && f[k].position == i))
  {
    FindingsUpToSound(s, |s|);
    FindingsUpToSorted(s, |s|);
    FindingsUpToComplete(s, |s|);
    var f := Findings(s);
    if f != [] {
      IncreasingWithin(f, 0, |s|);
    }
    forall k | 0 <= k < |f|
      ensures NonPrintable(f[k].character)
    {
      DisplayFlagsExactly(f[k].character);
    }
    forall i | 0 <= i < |s|
      ensures NonPrintable(s[i]) <==> exists k :: 0 <= k < |f| && f[k].position == i
    {
      DisplayFlagsExactly(s[i]);
    }
  }

  /** `find_binary_characters(xml_content)`: one left-to-right pass collecting the records. */
  method FindBinaryCharacters(xmlContent: string) returns (binaryChars: seq<Finding>)
    ensures binaryChars == Findings(xmlContent)
  {
    binaryChars := [];
    for i := 0 to |xmlContent|
      invariant binaryChars == FindingsUpTo(xmlContent, i)
    {
      var c := xmlContent[i];
      if c as int < 32 && c !in "\n\r\t" {
        binaryChars := binaryChars + [Finding(i, c, "\\u" + Hex4(c as int))];
      } else if c as int == 0xFFFF || c as int == 0xFFFE {
        binaryChars := binaryChars + [Finding(i, c, "\\u" + Hex4(c as int))];
      } else if c == '\U{FFFD}' {
        binaryChars := binaryChars + [Finding(i, c, ReplacementLabel)];
      }
    }
  }

  /** `t.replace("\n", "\\n")`: every newline becomes a backslash followed by `n`. */
  function EscapeNewlines(t: string): string
  {
    if t == [] then []
    else (if t[0] == '\n' then "\\n" else [t[0]]) + EscapeNewlines(t[1..])
  }

  /** Reads every backslash-`n` pair back as a newline; the partner of `EscapeNewlines`. */
  function UnescapeNewlines(u: string): string
  {
    if u == [] then []
    else if |u| >= 2 && u[0] == '\\' && u[1] == 'n' then "\n" + UnescapeNewlines(u[2..])
    else [u[0]] + UnescapeNewlines(u[1..])
  }

  function NewlineCount(t: string): nat
  {
    if t == [] then 0 else (if t[0] == '\n' then 1 else 0) + NewlineCount(t[1..])
  }

  /**
   * Escaping leaves no raw newline, grows the text by one character per
   * newline, and is undone by reading the pairs back, provided the text had no
   * backslash of its own.
   */
  lemma {:induction false} EscapeNewlinesFacts(t: string)
    ensures '\n' !in EscapeNewlines(t)
    ensures |EscapeNewlines(t)| == |t| + NewlineCount(t)
    ensures '\\' !in t ==> UnescapeNewlines(EscapeNewlines(t)) == t
  {
    if t != [] {
      EscapeNewlinesFacts(t[1..]);
      var head := if t[0] == '\n' then "\\n" else [t[0]];
      var e := head + EscapeNewlines(t[1..]);
      assert '\n' !in head;
      if '\\' !in t {
        assert '\\' !in t[1..];
        if t[0] == '\n' {
          assert e[2..] == EscapeNewlines(t[1..]);
        } else {
          assert e[1..] == EscapeNewlines(t[1..]);
        }
        assert t == [t[0]] + t[1..];
      }
    }
  }

  /** Text without newlines is left as it is. */
  lemma {:induction false} EscapeWithoutNewlines(t: string)
    requires '\n' !in t
    ensures EscapeNewlines(t) == t
  {
    if t != [] {
      assert '\n' !in t[1..];
      EscapeWithoutNewlines(t[1..]);
      assert t == [t[0]] + t[1..];
    }
  }

  /** Python's `s[start:end]` for `0 <= start` and `end <= |s|`: empty when `start > end`. */
  function Slice(s: string, start: nat, end: nat): string
    requires end <= |s|
  {
    if start <= end then s[start..end] else []
  }

  /** `max(0, pos - 20)`. */
  function WindowStart(pos: nat): nat
  {
    if pos >= ContextRadius then pos - ContextRadius else 0
  }

  /** `min(len(s), pos + 20)`. */
  function WindowEnd(s: string, pos: nat): nat
  {
    if |s| <= pos + ContextRadius then |s| else pos + ContextRadius
  }

  /** The raw context around `pos`: at most 20 characters on either side. */
  function Window(s: string, pos: nat): string
  {
    Slice(s, WindowStart(pos), WindowEnd(s, pos))
  }

  /** The displayed context: the window with newlines escaped, between `...` markers. */
  function Context(s: string, pos: nat): string
  {
    "..." + EscapeNewlines(Window(s, pos)) + "..."
  }

  /**
   * The context holds no raw newline; its window is at most 40 characters
   * long; and for a position inside the text the window holds that position's
   * character, at offset `pos - max(0, pos - 20)`.
   */
  lemma ContextFacts(s: string, pos: nat)
    ensures '\n' !in Context(s, pos)
    ensures |Window(s, pos)| <= 2 * ContextRadius
    ensures pos < |s| ==> pos - WindowStart(pos) < |Window(s, pos)| &&
                          Window(s, pos)[pos - WindowStart(pos)] == s[pos]
  {
    EscapeNewlinesFacts(Window(s, pos));
  }

  /** The location record built for one finding. */
  function LocationOf(s: string, f: Finding): Location
  {
    Location(f.position, f.display, Context(s, f.position))
  }

  /** The location records for the findings `fs`, one each, in the same order. */
  function Locations(s: string, fs: seq<Finding>): (r: seq<Location>)
    ensures |r| == |fs|
    ensures forall k :: 0 <= k < |fs| ==> r[k] == LocationOf(s, fs[k])
  {
    if fs == [] then [] else Locations(s, fs[..|fs| - 1]) + [LocationOf(s, fs[|fs| - 1])]
  }

  /** What `check_for_binary_content` ends in, stated over the scan's records. */
  function BinaryOutcome(s: string): Outcome
  {
    var f := Findings(s);
    if f == [] then Returned(true)
    else Raised(BinaryContent(BinaryMessage, |f|, Locations(s, f)))
  }

  /**
   * The check passes exactly when no character is non-printable; otherwise it
   * raises with one location per record, in the scan's order, each carrying
   * the record's position and display form and a newline-free context. It
   * never returns false.
   */
  lemma BinaryOutcomeCharacterization(s: string)
    ensures BinaryOutcome(s) == Returned(true) <==> forall i :: 0 <= i < |s| ==> !NonPrintable(s[i])
    ensures BinaryOutcome(s) != Returned(false)
    ensures BinaryOutcome(s).Raised? ==>
      var e := BinaryOutcome(s).error;
      && e.BinaryContent?
      && e.count == |Findings(s)| == |e.locations| > 0
      && forall k :: 0 <= k < e.count ==>
           e.locations[k].position == Findings(s)[k].position < |s| &&
           e.locations[k].character == Findings(s)[k].display &&
           '\n' !in e.locations[k].context
  {
    FindingsCharacterization(s);
    var f := Findings(s);
    if f == [] {
    } else {
      assert NonPrintable(s[f[0].position]);
      forall k | 0 <= k < |f|
        ensures '\n' !in Context(s, f[k].position)
      {
        ContextFacts(s, f[k].position);
      }
    }
  }

  /** A text with a single non-printable character is reported with exactly one location, at that character. */
  lemma SingleNonPrintable(s: string, i: nat)
    requires i < |s| && NonPrintable(s[i])
    requires forall j :: 0 <= j < |s| && j != i ==> !NonPrintable(s[j])
    ensures Display(s[i]).Some?
    ensures BinaryOutcome(s) ==
      Raised(BinaryContent(BinaryMessage, 1, [Location(i, Display(s[i]).value, Context(s, i))]))
  {
    DisplayFlagsExactly(s[i]);
    FindingsCharacterization(s);
    var f := Findings(s);
    assert forall m :: 0 <= m < |f| ==> f[m].position == i;
    IncreasingWithin(f, i, i + 1);
    assert f[0] == Finding(i, s[i], Display(s[i]).value);
    assert Locations(s, f) == [LocationOf(s, f[0])];
  }

  /** `check_for_binary_content(xml_content)`: scan, then build one location per record. */
  method CheckForBinaryContent(xmlContent: string) returns (o: Outcome)
    ensures o == BinaryOutcome(xmlContent)
  {
    var binaryChars := FindBinaryCharacters(xmlContent);
    if binaryChars != [] {
      var locations: seq<Location> := [];
      for k := 0 to |binaryChars|
        invariant locations == Locations(xmlContent, binaryChars[..k])
      {
        var f := binaryChars[k];
        var start := if f.position >= ContextRadius then f.position - ContextRadius else 0;
        var end := if |xmlContent| <= f.position + ContextRadius then |xmlContent|
                   else f.position + ContextRadius;
        var context := EscapeNewlines(Slice(xmlContent, start, end));
        var location := Location(f.position, f.display, "..." + context + "...");
        assert location == LocationOf(xmlContent, f) by {
          assert start == WindowStart(f.position) && end == WindowEnd(xmlContent, f.position);
        }
        assert binaryChars[..k + 1][..k] == binaryChars[..k];
        assert Locations(xmlContent, binaryChars[..k + 1]) == locations + [location];
        locations := locations + [location];
      }
      assert binaryChars[..|binaryChars|] == binaryChars;
      return Raised(BinaryContent(BinaryMessage, |binaryChars|, locations));
    }
    return Returned(true);
  }
}
