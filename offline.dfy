/** The line helpers `trim` and `splitOff` the OFF reader uses
    (TriangleMesh.cpp:5-39; TetrahedronMesh.cpp:4-38 is the same code).
    Strings are sequences of characters; the `std::string` searches they
    call are modelled by the functions `FirstNotOf`, `LastNotOf` and `Find`,
    with the length of the string standing for `npos` (and `-1` for the
    backward search). */
module OffLine {
  import opened Discovery

  // ---------------------------------------------------------------------
  // The library searches
  // ---------------------------------------------------------------------

  /** `find_first_not_of(c)`: the first position not holding `c`, or `|s|`. */
  function FirstNotOf(s: string, c: char): (k: nat)
    ensures k <= |s| && (k < |s| ==> s[k] != c)
    ensures forall j :: 0 <= j < k ==> s[j] == c
  {
    if |s| == 0 || s[0] != c then 0 else 1 + FirstNotOf(s[1..], c)
  }

  /** `find_last_not_of(c)`: the last position not holding `c`, or `-1`. */
  function LastNotOf(s: string, c: char): (k: int)
    ensures -1 <= k < |s| && (k >= 0 ==> s[k] != c)
    ensures forall j :: k < j < |s| ==> s[j] == c
  {
    if |s| == 0 then -1 else if s[|s| - 1] != c then |s| - 1 else LastNotOf(s[..|s| - 1], c)
  }

  /** `find(c)`: the first position holding `c`, or `|s|`. */
  function Find(s: string, c: char): (k: nat)
    ensures k <= |s| && (k < |s| ==> s[k] == c)
  {
    if |s| == 0 || s[0] == c then 0 else 1 + Find(s[1..], c)
  }

  /** No earlier position holds `c`. */
  lemma {:induction false} FindFirst(s: string, c: char)
    ensures c !in s[..Find(s, c)]
  {
    if |s| > 0 && s[0] != c {
      FindFirst(s[1..], c);
      assert s[..Find(s, c)] == [s[0]] + s[1..][..Find(s[1..], c)];
    }
  }

  // ---------------------------------------------------------------------
  // trim
  // ---------------------------------------------------------------------

  /** `s` without its leading blanks (`' '` only, not tabs). */
  function StripLeading(s: string): string
  {
    if |s| > 0 && s[0] == ' ' then StripLeading(s[1..]) else s
  }

  /** `s` without its trailing blanks. */
  function StripTrailing(s: string): string
  {
    if |s| > 0 && s[|s| - 1] == ' ' then StripTrailing(s[..|s| - 1]) else s
  }

  /** `s` up to, not including, its last carriage return, if it has one. */
  function CutAtLastCR(s: string): string
  {
    if '\r' in s then s[..LastIndex(s, '\r')] else s
  }

  /** What `trim` returns: blanks stripped at both ends, then everything
      from the last `'\r'` on dropped. */
  function Trimmed(s: string): string
  {
    CutAtLastCR(StripTrailing(StripLeading(s)))
  }

  lemma {:induction false} LeadingAgrees(s: string)
    ensures s[FirstNotOf(s, ' ')..] == StripLeading(s)
  {
    if |s| > 0 && s[0] == ' ' {
      LeadingAgrees(s[1..]);
      assert s[1..][FirstNotOf(s[1..], ' ')..] == s[FirstNotOf(s, ' ')..];
    }
  }

  lemma {:induction false} TrailingAgrees(s: string)
    ensures s[..LastNotOf(s, ' ') + 1] == StripTrailing(s)
  {
    if |s| > 0 && s[|s| - 1] == ' ' {
      TrailingAgrees(s[..|s| - 1]);
      assert s[..|s| - 1][..LastNotOf(s[..|s| - 1], ' ') + 1] == s[..LastNotOf(s, ' ') + 1];
    }
  }

  /** `trim` (TriangleMesh.cpp:5-17): the two `erase` calls driven by the
      blank searches, then the cut at the last `'\r'`. */
  method Trim(s: string) returns (r: string)
    ensures r == Trimmed(s)
  {
    if |s| == 0 {
      return s;
    }
    r := s[FirstNotOf(s, ' ')..];
    LeadingAgrees(s);
    r := r[..LastNotOf(r, ' ') + 1];
    TrailingAgrees(StripLeading(s));
    if '\r' in r {
      r := r[..LastIndex(r, '\r')];
    }
  }

  lemma {:induction false} StripLeadingShape(s: string)
    ensures var r := StripLeading(s);
      |r| <= |s| && r == s[|s| - |r|..] && (|r| > 0 ==> r[0] != ' ') &&
      ((forall k :: 0 <= k < |s| ==> s[k] == ' ') ==> r == [])
  {
    if |s| > 0 && s[0] == ' ' {
      StripLeadingShape(s[1..]);
      var r := StripLeading(s[1..]);
      assert s[1..][|s[1..]| - |r|..] == s[|s| - |r|..];
    }
  }

  lemma {:induction false} StripTrailingShape(s: string)
    ensures var r := StripTrailing(s);
      r <= s && (|r| > 0 ==> r[|r| - 1] != ' ') && (|r| > 0 && |s| > 0 ==> r[0] == s[0]) &&
      (s == [] ==> r == [])
  {
    if |s| > 0 && s[|s| - 1] == ' ' {
      StripTrailingShape(s[..|s| - 1]);
    }
  }

  /** The result of `trim` is a piece of its input that neither starts with
      a blank nor, unless a carriage return was cut, ends with one; an empty
      or all-blank line trims to the empty string. */
  lemma {:induction false} TrimmedShape(s: string)
    ensures exists a, b :: 0 <= a <= b <= |s| && Trimmed(s) == s[a..b]
    ensures |Trimmed(s)| > 0 ==> Trimmed(s)[0] != ' '
    ensures (forall k :: 0 <= k < |s| ==> s[k] == ' ') ==> Trimmed(s) == []
    ensures '\r' !in s ==> '\r' !in Trimmed(s) && (|Trimmed(s)| > 0 ==> Trimmed(s)[|Trimmed(s)| - 1] != ' ')
  {
    var l := StripLeading(s);
    var t := StripTrailing(l);
    StripLeadingShape(s);
    StripTrailingShape(l);
    var a := |s| - |l|;
    var r := Trimmed(s);
    assert r <= t;
    assert r == s[a..a + |r|];
    if '\r' !in s {
      assert forall k :: 0 <= k < |t| ==> t[k] == s[a + k];
    }
  }

  /** A carriage return in the stripped line: `trim` keeps exactly what
      precedes the last one. */
  lemma {:induction false} TrimmedAtCR(s: string)
    requires '\r' in StripTrailing(StripLeading(s))
    ensures var t := StripTrailing(StripLeading(s));
      Trimmed(s) + ['\r'] <= t && '\r' !in t[|Trimmed(s)| + 1..]
  {
    var t := StripTrailing(StripLeading(s));
    var p := LastIndex(t, '\r');
    assert t[..p] + ['\r'] == t[..p + 1];
  }

  /** Without carriage returns, trimming twice changes nothing. */
  lemma {:induction false} TrimmedIdempotent(s: string)
    requires '\r' !in s
    ensures Trimmed(Trimmed(s)) == Trimmed(s)
  {
    TrimmedShape(s);
    var r := Trimmed(s);
    if |r| > 0 {
      assert StripLeading(r) == r;
      assert StripTrailing(r) == r;
    } else {
      assert StripTrailing(StripLeading(r)) == r;
    }
  }

  // ---------------------------------------------------------------------
  // splitOff
  // ---------------------------------------------------------------------

  /** The tokens the loop of `splitOff` cuts from `s`: the text before each
      separator; whatever follows the last separator is not a token. */
  function Pieces(s: string, sep: char): seq<string>
    decreases |s|
  {
    var p := Find(s, sep);
    if p == |s| then [] else [s[..p]] + Pieces(s[p + 1..], sep)
  }

  /** The tokens of `text` between single separators: `splitOff` appends a
      separator to the trimmed line and cuts it into pieces. */
  function Split(text: string, sep: char): seq<string>
  {
    Pieces(text + [sep], sep)
  }

  /** The tokens written back, each followed by the separator. */
  function JoinTerminated(ts: seq<string>, sep: char): string
  {
    if ts == [] then [] else ts[0] + [sep] + JoinTerminated(ts[1..], sep)
  }

  lemma {:induction false} JoinCons(head: string, ts: seq<string>, sep: char)
    ensures JoinTerminated([head] + ts, sep) == head + [sep] + JoinTerminated(ts, sep)
  {
    assert ([head] + ts)[1..] == ts;
  }

  lemma {:induction false} CutAtSeparator(s: string, sep: char)
    requires Find(s, sep) < |s|
    ensures s == s[..Find(s, sep)] + [sep] + s[Find(s, sep) + 1..]
  {
  }

  lemma {:induction false} PiecesJoin(s: string, sep: char)
    requires s == [] || s[|s| - 1] == sep
    ensures JoinTerminated(Pieces(s, sep), sep) == s
    decreases |s|
  {
    var p := Find(s, sep);
    if p < |s| {
      var head, rest := s[..p], s[p + 1..];
      PiecesJoin(rest, sep);
      JoinCons(head, Pieces(rest, sep), sep);
      CutAtSeparator(s, sep);
    } else {
      FindFirst(s, sep);
      assert s[..p] == s;
    }
  }

  lemma {:induction false} PiecesFacts(s: string, sep: char)
    ensures forall k :: 0 <= k < |Pieces(s, sep)| ==> sep !in Pieces(s, sep)[k]
    ensures |Pieces(s, sep)| == multiset(s)[sep]
    decreases |s|
  {
    var p := Find(s, sep);
    FindFirst(s, sep);
    if p < |s| {
      PiecesFacts(s[p + 1..], sep);
      SeparatorCount(s, sep);
    } else {
      assert s[..p] == s;
      assert multiset(s)[sep] == 0;
    }
  }

  /** Cutting at the first separator removes exactly one separator. */
  lemma {:induction false} SeparatorCount(s: string, sep: char)
    requires Find(s, sep) < |s|
    ensures multiset(s)[sep] == 1 + multiset(s[Find(s, sep) + 1..])[sep]
  {
    var p := Find(s, sep);
    FindFirst(s, sep);
    CutAtSeparator(s, sep);
    assert multiset(s) == multiset(s[..p]) + multiset{sep} + multiset(s[p + 1..]);
    assert multiset(s[..p])[sep] == 0;
  }

  /** Splitting loses nothing: the tokens joined with the separator give the
      text back; no token holds a separator; there is one more token than
      separators, so doubled separators give empty tokens. */
  lemma {:induction false} SplitRoundTrip(text: string, sep: char)
    ensures JoinTerminated(Split(text, sep), sep) == text + [sep]
    ensures forall k :: 0 <= k < |Split(text, sep)| ==> sep !in Split(text, sep)[k]
    ensures |Split(text, sep)| == multiset(text)[sep] + 1
  {
    PiecesJoin(text + [sep], sep);
    PiecesFacts(text + [sep], sep);
    assert multiset(text + [sep]) == multiset(text) + multiset{sep};
  }

  function Max(a: int, b: int): int
  {
    if a < b then b else a
  }

  function Min(a: int, b: int): int
  {
    if a < b then a else b
  }

  /** How many entries of `res` `splitOff` writes: none for an empty line,
      otherwise the tokens of the trimmed line, at most `npattern` of them
      but always at least one, since the cap is checked after a write. */
  function TokenCount(str: string, sep: char, npattern: int): (c: nat)
    ensures |str| > 0 ==> 1 <= c <= |Split(Trimmed(str), sep)|
    ensures |str| > 0 && npattern >= 1 ==> c <= npattern
  {
    if |str| == 0 then 0 else
      SplitRoundTrip(Trimmed(str), sep);
      Min(Max(npattern, 1), |Split(Trimmed(str), sep)|)
  }

  /** One turn of the `splitOff` loop cuts the next token. */
  lemma {:induction false} NextToken(tokens: seq<string>, n: nat, strs: string, sep: char)
    requires n <= |tokens| && tokens[n..] == Pieces(strs, sep) && Find(strs, sep) < |strs|
    ensures n < |tokens| && tokens[n] == strs[..Find(strs, sep)]
    ensures tokens[n + 1..] == Pieces(strs[Find(strs, sep) + 1..], sep)
  {
    assert tokens[n..][0] == tokens[n];
    assert tokens[n..][1..] == tokens[n + 1..];
  }

  /** `splitOff` (TriangleMesh.cpp:19-39) with the one-character separator
      every caller passes: false for an empty line; otherwise the first
      `TokenCount` tokens of the trimmed line land in `res[0..]` and the
      rest of `res` is untouched. */
  method SplitOff(str: string, sep: char, npattern: int, res: array<string>) returns (ok: bool)
    requires TokenCount(str, sep, npattern) <= res.Length
    modifies res
    ensures ok == (|str| > 0)
    ensures forall k :: 0 <= k < res.Length ==>
      res[k] == if k < TokenCount(str, sep, npattern) then Split(Trimmed(str), sep)[k] else old(res[k])
  {
    var text := Trim(str);
    if |str| == 0 {
      return false;
    }
    var n := CutTokens(text, sep, npattern, res);
    ok := true;
  }

  /** The loop of `splitOff` (TriangleMesh.cpp:24-37): cut the line, with a
      separator appended, at each separator in turn, writing the pieces to
      `res` and stopping once `npattern` have been written. */
  method CutTokens(text: string, sep: char, npattern: int, res: array<string>) returns (n: nat)
    requires Min(Max(npattern, 1), |Split(text, sep)|) <= res.Length
    modifies res
    ensures n == Min(Max(npattern, 1), |Split(text, sep)|)
    ensures forall k :: 0 <= k < n ==> res[k] == Split(text, sep)[k]
    ensures forall k :: n <= k < res.Length ==> res[k] == old(res[k])
  {
    ghost var tokens := Split(text, sep);
    var strs := text + [sep];
    var pos := Find(strs, sep);
    n := 0;
    while pos < |strs|
      invariant pos == Find(strs, sep)
      invariant n <= |tokens| && tokens[n..] == Pieces(strs, sep)
      invariant n < Max(npattern, 1)
      invariant n <= res.Length
      invariant forall k :: 0 <= k < n ==> res[k] == tokens[k]
      invariant forall k :: n <= k < res.Length ==> res[k] == old(res[k])
      decreases |strs|
    {
      var temp := strs[..pos];
      NextToken(tokens, n, strs, sep);
      res[n] := temp;
      n := n + 1;
      strs := strs[pos + 1..];
      pos := Find(strs, sep);
      if n >= npattern {
        break;
      }
    }
  }
}
