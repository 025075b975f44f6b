/**
 * The CDATA balance check (`check_cdata_sections`). It counts the opening
 * marker `<![CDATA[` and the closing marker `]]>` in the raw feed text and
 * raises when the two counts differ. Only the totals are compared, so the
 * order of the markers does not matter.
 */
module Cdata {
  import opened Outcomes

  const CdataOpen: string := "<![CDATA["
  const CdataClose: string := "]]>"
  const MismatchMessage: string := "CDATA sections mismatch"

  /** `s` begins with `pat`. */
  predicate StartsWith(s: string, pat: string)
  {
    |pat| <= |s| && s[..|pat|] == pat
  }

  /** Reference count: the number of positions of `s` at which `pat` begins. */
  function Count(s: string, pat: string): nat
    requires |pat| > 0
    decreases |s|
  {
    if |s| < |pat| then 0
    else (if StartsWith(s, pat) then 1 else 0) + Count(s[1..], pat)
  }

  /**
   * Python's `s.count(pat)` for a non-empty `pat`: a left-to-right scan that,
   * after a match, resumes just past it, so matches never overlap.
   */
  function StrCount(s: string, pat: string): nat
    requires |pat| > 0
    decreases |s|
  {
    if |s| < |pat| then 0
    else if StartsWith(s, pat) then 1 + StrCount(s[|pat|..], pat)
    else StrCount(s[1..], pat)
  }

  /** No proper suffix of `pat` is also a prefix of it, so two of its occurrences cannot overlap. */
  predicate Borderless(pat: string)
  {
    forall j :: 0 < j < |pat| ==> pat[j..] != pat[..|pat| - j]
  }

  lemma CdataOpenBorderless()
    ensures Borderless(CdataOpen)
  {
    forall j | 0 < j < |CdataOpen|
      ensures CdataOpen[j..] != CdataOpen[..|CdataOpen| - j]
    {
      assert CdataOpen[j..][0] != '<';
    }
  }

  lemma CdataCloseBorderless()
    ensures Borderless(CdataClose)
  {
    assert CdataClose[1..][1] != CdataClose[..2][1];
    assert CdataClose[2..][0] != CdataClose[..1][0];
  }

  /** A second match of `pat` starting `k` characters into a first one makes a border of `pat`. */
  lemma OverlapGivesBorder(s: string, pat: string, k: nat)
    requires StartsWith(s, pat) && 0 < k < |pat|
    ensures k <= |s| && StartsWith(s[k..], pat) ==> pat[k..] == pat[..|pat| - k]
  {
    if k <= |s| && StartsWith(s[k..], pat) {
      forall m | 0 <= m < |pat| - k
        ensures pat[k..][m] == pat[..|pat| - k][m]
      {
        assert pat[k + m] == s[k + m] == s[k..][m] == pat[m];
      }
    }
  }

  /** Inside a match of a borderless `pat` at the start of `s`, no other match begins. */
  lemma {:induction false} NoMatchInside(s: string, pat: string, j: nat)
    requires |pat| > 0 && Borderless(pat) && StartsWith(s, pat)
    requires 1 <= j <= |pat|
    ensures Count(s[1..], pat) == Count(s[j..], pat)
  {
    if j > 1 {
      NoMatchInside(s, pat, j - 1);
      OverlapGivesBorder(s, pat, j - 1);
      var t := s[j - 1..];
      assert !StartsWith(t, pat);
      if |t| >= |pat| {
        assert t[1..] == s[j..];
      }
    }
  }

  /** For a pattern that cannot overlap itself, Python's `count` is the count of all occurrences. */
  lemma {:induction false} StrCountIsCount(s: string, pat: string)
    requires |pat| > 0 && Borderless(pat)
    ensures StrCount(s, pat) == Count(s, pat)
    decreases |s|
  {
    if |s| >= |pat| {
      if StartsWith(s, pat) {
        StrCountIsCount(s[|pat|..], pat);
        NoMatchInside(s, pat, |pat|);
      } else {
        StrCountIsCount(s[1..], pat);
      }
    }
  }

  /**
   * `check_cdata_sections(content)`: returns true exactly when the two
   * markers occur equally often; otherwise raises with both counts and their
   * (strictly positive) difference. It never returns false.
   */
  function CheckCdataSections(content: string): (o: Outcome)
    ensures o == Returned(true) <==> Count(content, CdataOpen) == Count(content, CdataClose)
    ensures o.Raised? ==>
      var opens, closes := Count(content, CdataOpen), Count(content, CdataClose);
      o.error == CdataMismatch(MismatchMessage, opens, closes,
                               if opens >= closes then opens - closes else closes - opens)
      && o.error.difference > 0
    ensures o != Returned(false)
  {
    CdataOpenBorderless();
    CdataCloseBorderless();
    StrCountIsCount(content, CdataOpen);
    StrCountIsCount(content, CdataClose);
    var openCdata := StrCount(content, CdataOpen);
    var closeCdata := StrCount(content, CdataClose);
    if openCdata != closeCdata then
      Raised(CdataMismatch(MismatchMessage, openCdata, closeCdata,
                           if openCdata >= closeCdata then openCdata - closeCdata
                           else closeCdata - openCdata))
    else
      Returned(true)
  }

  /** A text in which no occurrence of `pat` can begin near its end and run past it. */
  predicate NoStraddle(a: string, pat: string)
  {
    forall j :: 0 <= j < |a| && |a| - j < |pat| ==> a[j..] != pat[..|a| - j]
  }

  /** Occurrences in `a + b` are those of `a` plus those of `b` when none straddles the seam. */
  lemma {:induction false} CountConcat(a: string, b: string, pat: string)
    requires |pat| > 0 && NoStraddle(a, pat)
    ensures Count(a + b, pat) == Count(a, pat) + Count(b, pat)
    decreases |a|
  {
    if a == [] {
      assert a + b == b;
    } else {
      assert (a + b)[1..] == a[1..] + b;
      assert NoStraddle(a[1..], pat) by {
        forall j | 0 <= j < |a[1..]| && |a[1..]| - j < |pat|
          ensures a[1..][j..] != pat[..|a[1..]| - j]
        {
          assert a[1..][j..] == a[j + 1..];
        }
      }
      CountConcat(a[1..], b, pat);
      if |a| >= |pat| {
        assert (a + b)[..|pat|] == a[..|pat|];
      } else {
        assert !StartsWith(a + b, pat) by {
          if |pat| <= |a + b| {
            assert (a + b)[..|pat|][..|a|] == a[0..] == (a + b)[..|a|];
          }
        }
        assert Count(a, pat) == 0 && Count(a[1..], pat) == 0;
      }
    }
  }

  /** A text holding no copy of `pat`'s first character holds no occurrence of `pat`. */
  lemma {:induction false} CountWithoutHead(s: string, pat: string)
    requires |pat| > 0
    requires forall i :: 0 <= i < |s| ==> s[i] != pat[0]
    ensures Count(s, pat) == 0
    decreases |s|
  {
    if |s| >= |pat| {
      assert s[..|pat|][0] != pat[0];
      CountWithoutHead(s[1..], pat);
    }
  }

  /** A text none of whose tail characters is `pat`'s first character cannot straddle. */
  lemma NoStraddleByHead(a: string, pat: string)
    requires |pat| > 0
    requires forall j :: 0 <= j < |a| && |a| - j < |pat| ==> a[j] != pat[0]
    ensures NoStraddle(a, pat)
  {
    forall j | 0 <= j < |a| && |a| - j < |pat|
      ensures a[j..] != pat[..|a| - j]
    {
      assert a[j..][0] != pat[..|a| - j][0];
    }
  }

  /** A piece of a feed text: one of the two markers, or text between them. */
  datatype Piece = Open | Close | Text(t: string)

  /**
   * Text that holds neither marker and does not end in the start of one, so
   * no marker is formed across its end.
   */
  predicate PlainText(t: string)
  {
    Count(t, CdataOpen) == 0 && Count(t, CdataClose) == 0 &&
    NoStraddle(t, CdataOpen) && NoStraddle(t, CdataClose)
  }

  predicate PlainPieces(ps: seq<Piece>)
  {
    forall k :: 0 <= k < |ps| && ps[k].Text? ==> PlainText(ps[k].t)
  }

  function PieceText(p: Piece): string
  {
    match p
    case Open => CdataOpen
    case Close => CdataClose
    case Text(t) => t
  }

  function Render(ps: seq<Piece>): string
  {
    if ps == [] then [] else PieceText(ps[0]) + Render(ps[1..])
  }

  /** The opening marker holds one opening marker, no closing one, and straddles neither. */
  lemma OpenPieceCounts()
    ensures NoStraddle(CdataOpen, CdataOpen) && NoStraddle(CdataOpen, CdataClose)
    ensures Count(CdataOpen, CdataOpen) == 1 && Count(CdataOpen, CdataClose) == 0
  {
    NoStraddleByHead(CdataOpen, CdataOpen);
    NoStraddleByHead(CdataOpen, CdataClose);
    CountWithoutHead(CdataOpen, CdataClose);
    assert Count(CdataOpen[1..], CdataOpen) == 0;
  }

  /** The closing marker holds one closing marker, no opening one, and straddles neither. */
  lemma ClosePieceCounts()
    ensures NoStraddle(CdataClose, CdataOpen) && NoStraddle(CdataClose, CdataClose)
    ensures Count(CdataClose, CdataOpen) == 0 && Count(CdataClose, CdataClose) == 1
  {
    NoStraddleByHead(CdataClose, CdataOpen);
    assert CdataClose[1..][1] != CdataClose[..2][1];
    assert CdataClose[2..][0] != CdataClose[..1][0];
    assert Count(CdataClose[1..], CdataClose) == 0;
  }

  /** Each piece holds exactly the markers it names, and none of them straddles into the next. */
  lemma PieceCounts(p: Piece)
    requires p.Text? ==> PlainText(p.t)
    ensures NoStraddle(PieceText(p), CdataOpen) && NoStraddle(PieceText(p), CdataClose)
    ensures Count(PieceText(p), CdataOpen) == if p == Open then 1 else 0
    ensures Count(PieceText(p), CdataClose) == if p == Close then 1 else 0
  {
    match p
    case Open => OpenPieceCounts();
    case Close => ClosePieceCounts();
    case Text(_) =>
  }

  /** The markers counted in a rendered text are exactly the marker pieces it was made of. */
  lemma {:induction false} RenderCounts(ps: seq<Piece>)
    requires PlainPieces(ps)
    ensures Count(Render(ps), CdataOpen) == multiset(ps)[Open]
    ensures Count(Render(ps), CdataClose) == multiset(ps)[Close]
  {
    if ps != [] {
      var head, rest := PieceText(ps[0]), Render(ps[1..]);
      assert Render(ps) == head + rest;
      assert PlainPieces(ps[1..]) by {
        forall k | 0 <= k < |ps[1..]| && ps[1..][k].Text?
          ensures PlainText(ps[1..][k].t)
        {
          assert ps[1..][k] == ps[k + 1];
        }
      }
      assert multiset(ps) == multiset{ps[0]} + multiset(ps[1..]) by {
        assert ps == [ps[0]] + ps[1..];
      }
      PieceCounts(ps[0]);
      CountConcat(head, rest, CdataOpen);
      CountConcat(head, rest, CdataClose);
      RenderCounts(ps[1..]);
    }
  }

  /**
   * Only totals matter: rearranging the pieces of a feed text never changes
   * the verdict, and the text passes exactly when it has as many opening as
   * closing markers, however they are interleaved.
   */
  lemma CdataVerdictIgnoresOrder(ps: seq<Piece>, qs: seq<Piece>)
    requires PlainPieces(ps) && multiset(ps) == multiset(qs)
    ensures CheckCdataSections(Render(ps)) == CheckCdataSections(Render(qs))
    ensures CheckCdataSections(Render(ps)) == Returned(true) <==> multiset(ps)[Open] == multiset(ps)[Close]
  {
    forall k | 0 <= k < |qs| && qs[k].Text?
      ensures PlainText(qs[k].t)
    {
      assert qs[k] in multiset(ps);
      var i :| 0 <= i < |ps| && ps[i] == qs[k];
    }
    RenderCounts(ps);
    RenderCounts(qs);
  }

  /** A closing marker before any opening one still passes: interleaving errors go unnoticed. */
  lemma CloseBeforeOpenPasses()
    ensures CheckCdataSections("]]><![CDATA[") == Returned(true)
  {
    var ps := [Close, Open];
    assert Render(ps[1..]) == CdataOpen;
    assert Render(ps) == "]]><![CDATA[";
    assert multiset(ps)[Open] == 1 == multiset(ps)[Close];
    CdataVerdictIgnoresOrder(ps, ps);
  }
}
