/** The text forms of IPv6 addresses: the literal syntax of section 2.2 of
    RFC 4291 (what `filter_var` with FILTER_FLAG_IPV6 accepts and what
    `inet_pton` reads), and the recommended text form of section 4 of
    RFC 5952 (what `inet_ntop` prints). */
module Ipv6Text {
  import opened Errors
  import opened Numerals
  import opened Text
  import opened Bytes
  import DottedQuad

  // ---------------------------------------------------------------------
  // Reading a literal (RFC 4291, section 2.2)
  // ---------------------------------------------------------------------

  /** "::" starts at position `j` of `s`. */
  predicate DoubleColonAt(s: string, j: int)
  {
    0 <= j && j + 1 < |s| && s[j] == ':' && s[j + 1] == ':'
  }

  /** The first "::" at or after `from`. */
  function FindDoubleColon(s: string, from: nat): (r: Option<nat>)
    requires from <= |s|
    ensures r.Some? ==> from <= r.value && DoubleColonAt(s, r.value)
    ensures r.Some? ==> forall j :: from <= j < r.value ==> !DoubleColonAt(s, j)
    ensures r.None? ==> forall j :: from <= j ==> !DoubleColonAt(s, j)
    decreases |s| - from
  {
    if from + 1 >= |s| then None
    else if DoubleColonAt(s, from) then Some(from)
    else FindDoubleColon(s, from + 1)
  }

  /** One group as a literal writes it: one to four hex digits, either case. */
  predicate IsGroupText(p: string)
  {
    1 <= |p| <= 4 && forall i :: 0 <= i < |p| ==> IsHexDigit(p[i])
  }

  function GroupValue(p: string): Word16
    requires IsGroupText(p)
  {
    HexValueBound(p);
    assert Pow(16, 4) == 0x1_0000 by {
      assert Pow(16, 1) == 16 && Pow(16, 2) == 256 && Pow(16, 3) == 4096;
    }
    assert Pow(16, |p|) <= Pow(16, 4);
    HexValue(p)
  }

  /** The groups written in the colon-separated pieces `ps`; with
      `quadAllowed` the last piece may be a dotted quad instead, which stands
      for the two low groups. */
  function PiecesGroups(ps: seq<string>, quadAllowed: bool): Option<seq<Word16>>
    decreases |ps|
  {
    if ps == [] then Some([])
    else if IsGroupText(ps[0]) then
      match PiecesGroups(ps[1..], quadAllowed)
      case Some(rest) => Some([GroupValue(ps[0])] + rest)
      case None => None
    else if |ps| == 1 && quadAllowed then
      match DottedQuad.Parse(ps[0])
      case Some(n) => Some([n / 0x1_0000, n % 0x1_0000])
      case None => None
    else None
  }

  /** The groups written in `t`, pieces separated by single colons. */
  function GroupsOf(t: string, quadAllowed: bool): Option<seq<Word16>>
  {
    PiecesGroups(Split(t, ':'), quadAllowed)
  }

  function Zeros(k: nat): (z: seq<Word16>)
    ensures |z| == k && forall i :: 0 <= i < k ==> z[i] == 0
  {
    seq(k, i => 0)
  }

  /** The eight groups an IPv6 literal denotes, most significant first, or
      None when `s` is not a literal: either eight groups, or at most seven
      around one "::" that stands for the zero groups left out; the text
      after the last colon may be a dotted quad worth two groups. */
  function Parse(s: string): (r: Option<seq<Word16>>)
    ensures r.Some? ==> |r.value| == 8
  {
    match FindDoubleColon(s, 0)
    case None => ParseFull(s)
    case Some(i) => ParseAround(s, i)
  }

  /** A literal without "::": exactly eight groups. */
  function ParseFull(s: string): (r: Option<seq<Word16>>)
    ensures r.Some? ==> |r.value| == 8
  {
    match GroupsOf(s, true)
    case Some(g) => if |g| == 8 then Some(g) else None
    case None => None
  }

  /** A literal whose first "::" starts at `i`: the groups before it, the
      groups after it, and zero groups between them to make eight. */
  function ParseAround(s: string, i: nat): (r: Option<seq<Word16>>)
    requires i + 2 <= |s|
    ensures r.Some? ==> |r.value| == 8
  {
    var head := if i == 0 then Some([]) else GroupsOf(s[..i], false);
    var tail := if i + 2 == |s| then Some([]) else GroupsOf(s[i + 2..], true);
    if head.Some? && tail.Some? && |head.value| + |tail.value| <= 7 then
      Some(head.value + Zeros(8 - |head.value| - |tail.value|) + tail.value)
    else None
  }

  /** `filter_var($s, FILTER_VALIDATE_IP, FILTER_FLAG_IPV6) !== false`. */
  predicate IsLiteral(s: string)
  {
    Parse(s).Some?
  }

  /** `inet_pton` on a literal: its sixteen bytes, big-endian groups. */
  function InetPton(s: string): (b: seq<Byte>)
    requires IsLiteral(s)
    ensures |b| == 16 && UnpackWords(b) == Parse(s).value
  {
    UnpackPackWords(Parse(s).value);
    PackWords(Parse(s).value)
  }

  // ---------------------------------------------------------------------
  // Printing (RFC 5952, section 4)
  // ---------------------------------------------------------------------

  /** The `len` groups from `st` on lie inside `g` and are all zero. */
  predicate ZeroRun(g: seq<Word16>, st: nat, len: nat)
  {
    st + len <= |g| && forall i :: st <= i < st + len ==> g[i] == 0
  }

  /** The number of zero groups from `i` on, up to the first non-zero one. */
  function ZerosFrom(g: seq<Word16>, i: nat): (n: nat)
    requires i <= |g|
    ensures ZeroRun(g, i, n) && (i + n == |g| || g[i + n] != 0)
    decreases |g| - i
  {
    if i < |g| && g[i] == 0 then 1 + ZerosFrom(g, i + 1) else 0
  }

  lemma ZerosFromIsLongest(g: seq<Word16>, i: nat, len: nat)
    requires i <= |g| && ZeroRun(g, i, len)
    ensures len <= ZerosFrom(g, i)
  {
    var n := ZerosFrom(g, i);
    assert forall k :: i <= k < i + len ==> g[k] == 0;
  }

  /** The longest run of zero groups that starts at or after `from`: its start
      and length, the leftmost of the longest when several tie. */
  function LongestZeroRun(g: seq<Word16>, from: nat): (r: (nat, nat))
    requires from <= |g|
    ensures from <= r.0 <= |g| && ZeroRun(g, r.0, r.1)
    ensures forall st: nat, len: nat :: from <= st && ZeroRun(g, st, len) ==> len <= r.1
    ensures forall st: nat :: from <= st < r.0 ==> !ZeroRun(g, st, r.1)
    decreases |g| - from
  {
    if from == |g| then (from, 0)
    else
      var here := ZerosFrom(g, from);
      var rest := LongestZeroRun(g, from + 1);
      assert forall len: nat :: ZeroRun(g, from, len) ==> len <= here by {
        forall len: nat | ZeroRun(g, from, len) ensures len <= here {
          ZerosFromIsLongest(g, from, len);
        }
      }
      if here >= rest.1 then (from, here) else rest
  }

  /** Each group in lower-case hex without leading zeros. */
  function ShortTexts(g: seq<Word16>): (ts: seq<string>)
    ensures |ts| == |g|
  {
    seq(|g|, i requires 0 <= i < |g| => HexText(g[i]))
  }

  /** The recommended text of eight groups: lower-case hex without leading
      zeros, colons between groups, and the longest run of two or more zero
      groups (the leftmost of equals) replaced by "::". */
  function Compressed(g: seq<Word16>): string
    requires |g| == 8
  {
    var (st, len) := LongestZeroRun(g, 0);
    if len < 2 then Join(ShortTexts(g), ':')
    else Join(ShortTexts(g[..st]), ':') + "::" + Join(ShortTexts(g[st + len..]), ':')
  }

  /** `inet_ntop` on sixteen bytes. */
  function InetNtop(b: seq<Byte>): string
    requires |b| == 16
  {
    Compressed(UnpackWords(b))
  }

  // ---------------------------------------------------------------------
  // Reading back what is printed
  // ---------------------------------------------------------------------

  /** `ps` are group texts that denote the groups `g`, one for one. */
  predicate Spells(ps: seq<string>, g: seq<Word16>)
  {
    |ps| == |g| && forall i :: 0 <= i < |ps| ==> IsGroupText(ps[i]) && GroupValue(ps[i]) == g[i]
  }

  lemma {:induction false} PiecesGroupsOfSpelling(ps: seq<string>, g: seq<Word16>, quadAllowed: bool)
    requires Spells(ps, g)
    ensures PiecesGroups(ps, quadAllowed) == Some(g)
  {
    if ps != [] {
      assert Spells(ps[1..], g[1..]);
      PiecesGroupsOfSpelling(ps[1..], g[1..], quadAllowed);
      assert [g[0]] + g[1..] == g;
    }
  }

  lemma GroupTextsAreColonFree(ps: seq<string>, g: seq<Word16>)
    requires Spells(ps, g)
    ensures forall k :: 0 <= k < |ps| ==> |ps[k]| >= 1 && ':' !in ps[k]
  {
    forall k | 0 <= k < |ps| ensures ':' !in ps[k] {
      assert forall i :: 0 <= i < |ps[k]| ==> IsHexDigit(ps[k][i]);
    }
  }

  /** Group texts joined by single colons read back as their groups. */
  lemma {:induction false} GroupsOfJoined(ps: seq<string>, g: seq<Word16>, quadAllowed: bool)
    requires |ps| >= 1 && Spells(ps, g)
    ensures GroupsOf(Join(ps, ':'), quadAllowed) == Some(g)
  {
    GroupTextsAreColonFree(ps, g);
    SplitJoin(ps, ':');
    PiecesGroupsOfSpelling(ps, g, quadAllowed);
  }

  /** Eight group texts joined by colons read back as their groups. */
  lemma {:induction false} ParseJoined(ps: seq<string>, g: seq<Word16>)
    requires |g| == 8 && Spells(ps, g)
    ensures Parse(Join(ps, ':')) == Some(g)
  {
    var s := Join(ps, ':');
    GroupTextsAreColonFree(ps, g);
    JoinIsolatesSeparators(ps, ':');
    assert forall j :: !DoubleColonAt(s, j);
    assert FindDoubleColon(s, 0) == None;
    GroupsOfJoined(ps, g, true);
  }

  /** The first "::" in group texts followed by "::" is that one. */
  lemma DoubleColonOfJoined(hp: seq<string>, hg: seq<Word16>, t: string)
    requires Spells(hp, hg)
    ensures var h := Join(hp, ':');
      FindDoubleColon(h + "::" + t, 0) == Some(|h|)
  {
    var h := Join(hp, ':');
    var s := h + "::" + t;
    GroupTextsAreColonFree(hp, hg);
    JoinIsolatesSeparators(hp, ':');
    assert forall j :: 0 <= j < |h| ==> s[j] == h[j];
    assert forall j :: 0 <= j < |h| ==> !DoubleColonAt(s, j);
    assert DoubleColonAt(s, |h|);
  }

  /** The text before the "::" reads back as the head groups. */
  lemma HeadOfJoined(hp: seq<string>, hg: seq<Word16>, t: string)
    requires Spells(hp, hg)
    ensures var h := Join(hp, ':');
      (if |h| == 0 then Some([]) else GroupsOf((h + "::" + t)[..|h|], false)) == Some(hg)
  {
    var h := Join(hp, ':');
    GroupTextsAreColonFree(hp, hg);
    JoinIsolatesSeparators(hp, ':');
    assert (h + "::" + t)[..|h|] == h;
    if hp != [] {
      GroupsOfJoined(hp, hg, false);
    }
  }

  /** The text after the "::" reads back as the tail groups. */
  lemma TailOfJoined(h: string, tp: seq<string>, tg: seq<Word16>)
    requires Spells(tp, tg)
    ensures var s := h + "::" + Join(tp, ':');
      (if |h| + 2 == |s| then Some([]) else GroupsOf(s[|h| + 2..], true)) == Some(tg)
  {
    var t := Join(tp, ':');
    GroupTextsAreColonFree(tp, tg);
    JoinIsolatesSeparators(tp, ':');
    assert (h + "::" + t)[|h| + 2..] == t;
    if tp != [] {
      GroupsOfJoined(tp, tg, true);
    }
  }

  /** With the groups on either side of the "::" at `i` known, the literal
      is those groups with the zeros that make eight between them. */
  lemma AroundOf(s: string, i: nat, hg: seq<Word16>, tg: seq<Word16>)
    requires i + 2 <= |s| && |hg| + |tg| <= 7
    requires (if i == 0 then Some([]) else GroupsOf(s[..i], false)) == Some(hg)
    requires (if i + 2 == |s| then Some([]) else GroupsOf(s[i + 2..], true)) == Some(tg)
    ensures ParseAround(s, i) == Some(hg + Zeros(8 - |hg| - |tg|) + tg)
  {
  }

  /** Group texts on both sides of "::" read back as those groups with the
      zero groups that make eight in between. */
  lemma {:induction false} ParseJoinedAround(hp: seq<string>, hg: seq<Word16>, tp: seq<string>, tg: seq<Word16>)
    requires Spells(hp, hg) && Spells(tp, tg) && |hg| + |tg| <= 7
    ensures Parse(Join(hp, ':') + "::" + Join(tp, ':')) == Some(hg + Zeros(8 - |hg| - |tg|) + tg)
  {
    var h, t := Join(hp, ':'), Join(tp, ':');
    var s := h + "::" + t;
    DoubleColonOfJoined(hp, hg, t);
    assert Parse(s) == ParseAround(s, |h|);
    HeadOfJoined(hp, hg, t);
    TailOfJoined(h, tp, tg);
    AroundOf(s, |h|, hg, tg);
  }

  /** `ParseJoinedAround`, for groups `g` that are the head, the zeros and
      the tail. */
  lemma ParseSplice(hp: seq<string>, hg: seq<Word16>, tp: seq<string>, tg: seq<Word16>, g: seq<Word16>)
    requires Spells(hp, hg) && Spells(tp, tg) && |hg| + |tg| <= 7
    requires hg + Zeros(8 - |hg| - |tg|) + tg == g
    ensures Parse(Join(hp, ':') + "::" + Join(tp, ':')) == Some(g)
  {
    ParseJoinedAround(hp, hg, tp, tg);
  }

  // ---------------------------------------------------------------------
  // What the validator refuses
  // ---------------------------------------------------------------------

  /** A piece that is not a group text refuses the pieces, unless it is the
      last one, a dotted quad is allowed there and the IPv4 validator accepts
      it. */
  lemma {:induction false} PiecesGroupsRefuse(ps: seq<string>, m: nat, quadAllowed: bool)
    requires m < |ps| && !IsGroupText(ps[m])
    requires m < |ps| - 1 || !quadAllowed || DottedQuad.Parse(ps[m]).None?
    ensures PiecesGroups(ps, quadAllowed) == None
  {
    if m > 0 {
      assert ps[1..][m - 1] == ps[m];
      PiecesGroupsRefuse(ps[1..], m - 1, quadAllowed);
    }
  }

  /** More than eight groups without "::" are refused. */
  lemma TooManyGroupsRefused(ps: seq<string>, g: seq<Word16>)
    requires |g| >= 9 && Spells(ps, g)
    ensures !IsLiteral(Join(ps, ':'))
  {
    var s := Join(ps, ':');
    GroupTextsAreColonFree(ps, g);
    JoinIsolatesSeparators(ps, ':');
    assert forall j :: !DoubleColonAt(s, j);
    assert FindDoubleColon(s, 0) == None;
    GroupsOfJoined(ps, g, true);
  }

  /** Eight or more groups around "::" are refused: "::" stands for at least
      one zero group. */
  lemma TooManyAroundRefused(hp: seq<string>, hg: seq<Word16>, tp: seq<string>, tg: seq<Word16>)
    requires Spells(hp, hg) && Spells(tp, tg) && |hg| + |tg| >= 8
    ensures !IsLiteral(Join(hp, ':') + "::" + Join(tp, ':'))
  {
    var h, t := Join(hp, ':'), Join(tp, ':');
    var s := h + "::" + t;
    DoubleColonOfJoined(hp, hg, t);
    assert Parse(s) == ParseAround(s, |h|);
    HeadOfJoined(hp, hg, t);
    TailOfJoined(h, tp, tg);
  }

  /** A second "::", also one overlapping the first as in ":::", is refused. */
  lemma SecondDoubleColonRefused(s: string, i: nat, j: nat)
    requires DoubleColonAt(s, i) && DoubleColonAt(s, j) && i < j
    ensures !IsLiteral(s)
  {
    assert FindDoubleColon(s, 0).Some?;
    var f := FindDoubleColon(s, 0).value;
    assert f <= i;
    var t := s[f + 2..];
    if j == f + 1 {
      assert t[0] == ':';
      EmptyPieceAt(t, ':', 0);
    } else {
      assert t[j - f - 1] == ':' && t[j - f - 2] == ':';
      EmptyPieceAt(t, ':', j - f - 1);
    }
    var m :| 0 <= m < |Split(t, ':')| - 1 && Split(t, ':')[m] == "";
    PiecesGroupsRefuse(Split(t, ':'), m, true);
    assert GroupsOf(t, true) == None;
  }

  /** Non-empty colon-free pieces joined by single colons are refused when
      one of them is not a group text, unless that one is the last and an
      accepted dotted quad. */
  lemma NonGroupPieceRefused(ps: seq<string>, k: nat)
    requires forall j :: 0 <= j < |ps| ==> |ps[j]| >= 1 && ':' !in ps[j]
    requires k < |ps| && !IsGroupText(ps[k])
    requires k < |ps| - 1 || DottedQuad.Parse(ps[k]).None?
    ensures !IsLiteral(Join(ps, ':'))
  {
    var s := Join(ps, ':');
    JoinIsolatesSeparators(ps, ':');
    assert forall j :: !DoubleColonAt(s, j);
    assert FindDoubleColon(s, 0) == None;
    SplitJoin(ps, ':');
    PiecesGroupsRefuse(ps, k, true);
  }

  // ---------------------------------------------------------------------
  // A dotted-quad tail
  // ---------------------------------------------------------------------

  /** A dotted quad the IPv4 validator accepts holds a '.' and no ':', so it
      is not a group text. */
  lemma QuadText(q: string)
    requires DottedQuad.Parse(q).Some?
    ensures |q| >= 1 && '.' in q && ':' !in q && !IsGroupText(q)
  {
    DottedQuad.ParseValue(q);
    var ps := Split(q, '.');
    forall k | 0 <= k < |ps|
      ensures ':' !in ps[k]
    {
      assert forall i :: 0 <= i < |ps[k]| ==> IsDecimalDigit(ps[k][i]);
    }
    JoinAvoids(ps, '.', ':');
    assert '.' in q;
  }

  /** Group texts followed by an accepted dotted quad read as the groups and
      the quad's high and low 16 bits. */
  lemma {:induction false} PiecesGroupsWithQuad(ps: seq<string>, g: seq<Word16>, q: string)
    requires Spells(ps, g) && DottedQuad.Parse(q).Some?
    ensures var n := DottedQuad.Parse(q).value;
      PiecesGroups(ps + [q], true) == Some(g + [n / 0x1_0000, n % 0x1_0000])
  {
    var n := DottedQuad.Parse(q).value;
    if ps == [] {
      QuadText(q);
      assert ps + [q] == [q] && [q][0] == q;
      assert g + [n / 0x1_0000, n % 0x1_0000] == [n / 0x1_0000, n % 0x1_0000];
    } else {
      assert (ps + [q])[1..] == ps[1..] + [q];
      assert Spells(ps[1..], g[1..]);
      PiecesGroupsWithQuad(ps[1..], g[1..], q);
      assert [g[0]] + (g[1..] + [n / 0x1_0000, n % 0x1_0000]) == g + [n / 0x1_0000, n % 0x1_0000];
    }
  }

  /** Six group texts and an accepted dotted quad, joined by ':', read as the
      six groups and the quad's high and low 16 bits. */
  lemma ParseJoinedQuad(hp: seq<string>, hg: seq<Word16>, q: string)
    requires |hg| == 6 && Spells(hp, hg) && DottedQuad.Parse(q).Some?
    ensures var n := DottedQuad.Parse(q).value;
      Parse(Join(hp + [q], ':')) == Some(hg + [n / 0x1_0000, n % 0x1_0000])
  {
    var ps := hp + [q];
    var s := Join(ps, ':');
    QuadText(q);
    GroupTextsAreColonFree(hp, hg);
    assert forall k :: 0 <= k < |ps| ==> |ps[k]| >= 1 && ':' !in ps[k];
    JoinIsolatesSeparators(ps, ':');
    assert forall j :: !DoubleColonAt(s, j);
    assert FindDoubleColon(s, 0) == None;
    SplitJoin(ps, ':');
    PiecesGroupsWithQuad(hp, hg, q);
  }

  /** Group texts and an accepted dotted quad last, joined by ':', read as
      the groups and the quad's high and low 16 bits. */
  lemma GroupsWithQuad(tp: seq<string>, tg: seq<Word16>, q: string)
    requires Spells(tp, tg) && DottedQuad.Parse(q).Some?
    ensures var n := DottedQuad.Parse(q).value;
      |Join(tp + [q], ':')| >= 1 && GroupsOf(Join(tp + [q], ':'), true) == Some(tg + [n / 0x1_0000, n % 0x1_0000])
  {
    var ps := tp + [q];
    QuadText(q);
    GroupTextsAreColonFree(tp, tg);
    assert forall k :: 0 <= k < |ps| ==> |ps[k]| >= 1 && ':' !in ps[k];
    JoinIsolatesSeparators(ps, ':');
    SplitJoin(ps, ':');
    PiecesGroupsWithQuad(tp, tg, q);
  }

  /** Group texts, "::", and a non-empty text that reads as groups. */
  lemma ParseAroundText(hp: seq<string>, hg: seq<Word16>, t: string, tg: seq<Word16>, g: seq<Word16>)
    requires Spells(hp, hg) && |t| >= 1 && GroupsOf(t, true) == Some(tg) && |hg| + |tg| <= 7
    requires g == hg + Zeros(8 - |hg| - |tg|) + tg
    ensures Parse(Join(hp, ':') + "::" + t) == Some(g)
  {
    var h := Join(hp, ':');
    var s := h + "::" + t;
    DoubleColonOfJoined(hp, hg, t);
    assert Parse(s) == ParseAround(s, |h|);
    HeadOfJoined(hp, hg, t);
    assert s[|h| + 2..] == t;
    AroundOf(s, |h|, hg, tg);
  }

  /** Group texts around "::" with an accepted dotted quad last read as the
      head groups, the zeros that make eight, the tail groups and the quad's
      high and low 16 bits. */
  lemma ParseAroundQuad(hp: seq<string>, hg: seq<Word16>, tp: seq<string>, tg: seq<Word16>, q: string)
    requires Spells(hp, hg) && Spells(tp, tg) && |hg| + |tg| <= 5 && DottedQuad.Parse(q).Some?
    ensures var n := DottedQuad.Parse(q).value;
      Parse(Join(hp, ':') + "::" + Join(tp + [q], ':'))
      == Some(hg + Zeros(6 - |hg| - |tg|) + tg + [n / 0x1_0000, n % 0x1_0000])
  {
    var n := DottedQuad.Parse(q).value;
    var lows := [n / 0x1_0000, n % 0x1_0000];
    GroupsWithQuad(tp, tg, q);
    ZerosAround(hg, tg, lows);
    ParseAroundText(hp, hg, Join(tp + [q], ':'), tg + lows, hg + Zeros(6 - |hg| - |tg|) + tg + lows);
  }

  lemma ZerosAround(hg: seq<Word16>, tg: seq<Word16>, lows: seq<Word16>)
    requires |lows| == 2 && |hg| + |tg| <= 5
    ensures hg + Zeros(8 - |hg| - |tg + lows|) + (tg + lows) == hg + Zeros(6 - |hg| - |tg|) + tg + lows
  {
    assert 8 - |hg| - |tg + lows| == 6 - |hg| - |tg|;
  }

  /** The hex texts without leading zeros spell the groups. */
  lemma ShortTextsSpell(g: seq<Word16>)
    ensures Spells(ShortTexts(g), g)
  {
    forall i | 0 <= i < |g|
      ensures IsGroupText(ShortTexts(g)[i]) && GroupValue(ShortTexts(g)[i]) == g[i]
    {
      HexTextFacts(g[i]);
      assert Pow(16, 4) == 0x1_0000 by {
        assert Pow(16, 1) == 16 && Pow(16, 2) == 256 && Pow(16, 3) == 4096;
      }
      DigitsOfLength(g[i], 16, 4);
    }
  }

  /** The four-digit hex texts spell the groups. */
  lemma WordHexesSpell(g: seq<Word16>)
    ensures Spells(WordHexes(g), g)
  {
  }

  /** What `inet_ntop` prints, `inet_pton` reads back as the same groups. */
  lemma ParseCompressed(g: seq<Word16>)
    requires |g| == 8
    ensures Parse(Compressed(g)) == Some(g)
  {
    var (st, len) := LongestZeroRun(g, 0);
    if len < 2 {
      ShortTextsSpell(g);
      ParseJoined(ShortTexts(g), g);
    } else {
      ParseAroundRun(g, st, len);
    }
  }

  /** The short texts either side of a zero run, around "::", read back as
      the groups. */
  lemma ParseAroundRun(g: seq<Word16>, st: nat, len: nat)
    requires |g| == 8 && len >= 1 && ZeroRun(g, st, len)
    ensures Parse(Join(ShortTexts(g[..st]), ':') + "::" + Join(ShortTexts(g[st + len..]), ':')) == Some(g)
  {
    var hg, tg := g[..st], g[st + len..];
    assert |hg| == st && |tg| == 8 - st - len;
    SpliceRun(g, st, len);
    ShortTextsSpell(hg);
    ShortTextsSpell(tg);
    ParseSplice(ShortTexts(hg), hg, ShortTexts(tg), tg, g);
  }

  /** A zero run is the zero groups between what comes before and after it. */
  lemma SpliceRun(g: seq<Word16>, st: nat, len: nat)
    requires ZeroRun(g, st, len)
    ensures g[..st] + Zeros(len) + g[st + len..] == g
  {
    assert Zeros(len) == g[st..st + len];
    assert g[..st] + g[st..st + len] + g[st + len..] == g;
  }

  /** Four-digit groups joined by colons read back as the same groups. */
  lemma ParseFourDigitGroups(g: seq<Word16>)
    requires |g| == 8
    ensures Parse(Join(WordHexes(g), ':')) == Some(g)
  {
    WordHexesSpell(g);
    ParseJoined(WordHexes(g), g);
  }

  /** The printed text uses "::" exactly when the groups hold a run of two or
      more zeros: a single zero group is never shortened (RFC 5952, section
      4.2.2), and any longer run always is (section 4.2.1). */
  lemma CompressedUsesDoubleColon(g: seq<Word16>)
    requires |g| == 8
    ensures (exists j :: DoubleColonAt(Compressed(g), j)) <==> (exists st: nat :: ZeroRun(g, st, 2))
  {
    var (st, len) := LongestZeroRun(g, 0);
    var s := Compressed(g);
    if len < 2 {
      ShortTextsSpell(g);
      GroupTextsAreColonFree(ShortTexts(g), g);
      JoinIsolatesSeparators(ShortTexts(g), ':');
      assert forall j :: !DoubleColonAt(s, j);
    } else {
      var h := Join(ShortTexts(g[..st]), ':');
      assert DoubleColonAt(s, |h|);
      assert ZeroRun(g, st, 2);
    }
  }
}
