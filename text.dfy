/** The string primitives both address types lean on: splitting at a
    separator and joining with one (PHP's `explode`/`join`), and cutting a
    string into fixed-size pieces (`str_split`). */
module Text {

  /** The position of the first `c` in `s`. */
  function IndexOf(s: string, c: char): (i: nat)
    requires c in s
    ensures i < |s| && s[i] == c
    ensures forall k :: 0 <= k < i ==> s[k] != c
  {
    if s[0] == c then 0 else 1 + IndexOf(s[1..], c)
  }

  /** The pieces joined, with `sep` between neighbours. */
  function Join(ps: seq<string>, sep: char): string
  {
    if |ps| == 0 then ""
    else if |ps| == 1 then ps[0]
    else ps[0] + [sep] + Join(ps[1..], sep)
  }

  /** The maximal pieces of `s` that hold no `sep`, in order. */
  function Split(s: string, sep: char): (ps: seq<string>)
    ensures |ps| >= 1
    ensures forall k :: 0 <= k < |ps| ==> sep !in ps[k]
    ensures Join(ps, sep) == s
    decreases |s|
  {
    if sep !in s then [s]
    else
      var i := IndexOf(s, sep);
      var rest := Split(s[i + 1..], sep);
      assert s == s[..i] + [sep] + s[i + 1..];
      assert ([s[..i]] + rest)[1..] == rest;
      [s[..i]] + rest
  }

  /** Splitting undoes joining pieces that do not hold the separator. */
  lemma {:induction false} SplitJoin(ps: seq<string>, sep: char)
    requires |ps| >= 1
    requires forall k :: 0 <= k < |ps| ==> sep !in ps[k]
    ensures Split(Join(ps, sep), sep) == ps
  {
    if |ps| > 1 {
      var p, rest := ps[0], Join(ps[1..], sep);
      var s := Join(ps, sep);
      assert s == p + [sep] + rest;
      assert s[|p|] == sep;
      assert forall m :: 0 <= m < |p| ==> s[m] == p[m];
      assert forall m :: 0 <= m < |p| ==> s[m] != sep;
      var i := IndexOf(s, sep);
      assert i == |p|;
      assert s[..i] == p;
      assert s[i + 1..] == rest;
      assert Split(s, sep) == [p] + Split(rest, sep);
      SplitJoin(ps[1..], sep);
      assert [p] + ps[1..] == ps;
    } else {
      assert Join(ps, sep) == ps[0];
    }
  }

  /** No separator in a joined string is at either end or next to another
      one, when every piece is non-empty and free of the separator. */
  predicate IsolatedSeparators(s: string, sep: char)
  {
    forall j :: 0 <= j < |s| && s[j] == sep ==> 0 < j < |s| - 1 && s[j - 1] != sep && s[j + 1] != sep
  }

  lemma {:induction false} JoinIsolatesSeparators(ps: seq<string>, sep: char)
    requires forall k :: 0 <= k < |ps| ==> |ps[k]| >= 1 && sep !in ps[k]
    ensures IsolatedSeparators(Join(ps, sep), sep)
    ensures |ps| >= 1 ==> |Join(ps, sep)| >= 1 && Join(ps, sep)[0] != sep
    ensures |ps| == 0 <==> Join(ps, sep) == ""
  {
    if |ps| > 1 {
      JoinIsolatesSeparators(ps[1..], sep);
      var p, rest := ps[0], Join(ps[1..], sep);
      var s := p + [sep] + rest;
      assert Join(ps, sep) == s;
      assert forall m :: 0 <= m < |p| ==> s[m] == p[m];
      assert forall m :: |p| < m < |s| ==> s[m] == rest[m - |p| - 1];
      assert s[0] == p[0];
    } else if |ps| == 1 {
      assert Join(ps, sep) == ps[0];
    }
  }

  /** A character that is neither the separator nor in any piece is not in
      the join. */
  lemma {:induction false} JoinAvoids(ps: seq<string>, sep: char, c: char)
    requires c != sep && forall k :: 0 <= k < |ps| ==> c !in ps[k]
    ensures c !in Join(ps, sep)
  {
    if |ps| > 1 {
      JoinAvoids(ps[1..], sep, c);
    }
  }

  /** A separator at the start, or right after another separator, leaves an
      empty piece that is not the last. */
  lemma {:induction false} EmptyPieceAt(s: string, sep: char, k: nat)
    requires k < |s| && s[k] == sep && (k == 0 || s[k - 1] == sep)
    ensures exists m :: 0 <= m < |Split(s, sep)| - 1 && Split(s, sep)[m] == ""
    decreases |s|
  {
    var i := IndexOf(s, sep);
    var rest := Split(s[i + 1..], sep);
    assert Split(s, sep) == [s[..i]] + rest;
    if k == 0 {
      assert Split(s, sep)[0] == "";
    } else {
      assert i <= k - 1;
      assert s[i + 1..][k - i - 1] == sep;
      assert k - i - 1 == 0 || s[i + 1..][k - i - 2] == sep;
      EmptyPieceAt(s[i + 1..], sep, k - i - 1);
      var m :| 0 <= m < |rest| - 1 && rest[m] == "";
      assert Split(s, sep)[m + 1] == "";
    }
  }

  /** Consecutive pieces of `s` of length `k`; the last may be shorter. */
  function Chunks(s: string, k: nat): (ps: seq<string>)
    requires k >= 1
    ensures |ps| >= 1 && Concat(ps) == s
    ensures forall j :: 0 <= j < |ps| - 1 ==> |ps[j]| == k
    ensures |ps[|ps| - 1]| <= k
    decreases |s|
  {
    if |s| <= k then [s] else [s[..k]] + Chunks(s[k..], k)
  }

  /** Chunks of a concatenation of k-character pieces are those pieces. */
  lemma {:induction false} ChunksOfPieces(s: string, k: nat, ps: seq<string>)
    requires k >= 1 && |ps| >= 1
    requires forall j :: 0 <= j < |ps| ==> |ps[j]| == k
    requires s == Concat(ps)
    ensures Chunks(s, k) == ps
  {
    if |ps| > 1 {
      assert Concat(ps[1..]) == ps[1] + Concat(ps[2..]);
      assert s[..k] == ps[0] && s[k..] == Concat(ps[1..]);
      ChunksOfPieces(s[k..], k, ps[1..]);
      assert [ps[0]] + ps[1..] == ps;
    } else {
      assert ps[1..] == [];
      assert s == ps[0];
    }
  }

  /** The pieces one after another, with nothing between them. */
  function Concat(ps: seq<string>): string
  {
    if ps == [] then "" else ps[0] + Concat(ps[1..])
  }

  /** In a join of four-character pieces, piece `i` sits at offset 5 * i
      and a separator follows every piece but the last. */
  lemma {:induction false} JoinFourCharPieces(ps: seq<string>, sep: char)
    requires |ps| >= 1
    requires forall j :: 0 <= j < |ps| ==> |ps[j]| == 4
    ensures |Join(ps, sep)| == 5 * |ps| - 1
    ensures forall i :: 0 <= i < |ps| ==> Join(ps, sep)[5 * i..5 * i + 4] == ps[i]
    ensures forall i :: 0 <= i < |ps| - 1 ==> Join(ps, sep)[5 * i..5 * i + 5] == ps[i] + [sep]
  {
    if |ps| > 1 {
      JoinFourCharPieces(ps[1..], sep);
      var rest := Join(ps[1..], sep);
      var s := ps[0] + [sep] + rest;
      assert Join(ps, sep) == s;
      forall i | 1 <= i < |ps|
        ensures s[5 * i..5 * i + 4] == ps[i]
      {
        assert s[5 * i..5 * i + 4] == rest[5 * (i - 1)..5 * (i - 1) + 4];
        assert ps[1..][i - 1] == ps[i];
      }
      forall i | 1 <= i < |ps| - 1
        ensures s[5 * i..5 * i + 5] == ps[i] + [sep]
      {
        assert s[5 * i..5 * i + 5] == rest[5 * (i - 1)..5 * (i - 1) + 5];
        assert ps[1..][i - 1] == ps[i];
      }
      assert s[0..4] == ps[0];
      assert s[0..5] == ps[0] + [sep];
    }
  }
}
