/** String primitives shared by the enrichment pipeline, the stores and the reply
    parser: ASCII case folding, the two whitespace classes (JavaScript `\s` and
    Python `str.isspace`), trimming, splitting, substring search and replacement. */
module Text {

  /** Lower-cases ASCII letters and leaves every other character alone. Arabic has
      no case, so this is how `toLowerCase` behaves on the text this core handles. */
  function LowerChar(c: char): char
  {
    if 'A' <= c <= 'Z' then (c as int + 32) as char else c
  }

  function Lower(s: string): (r: string)
    ensures |r| == |s|
    ensures forall i :: 0 <= i < |s| ==> r[i] == LowerChar(s[i])
  {
    if s == [] then [] else [LowerChar(s[0])] + Lower(s[1..])
  }

  /** The characters JavaScript's `\s` and `String.prototype.trim` treat as whitespace. */
  predicate IsJsSpace(c: char)
  {
    c == ' ' || c == '\t' || c == '\n' || c == '\r' || c == '\U{B}' || c == '\U{C}'
    || c == '\U{A0}' || c == '\U{1680}' || ('\U{2000}' <= c <= '\U{200A}')
    || c == '\U{2028}' || c == '\U{2029}' || c == '\U{202F}' || c == '\U{205F}'
    || c == '\U{3000}' || c == '\U{FEFF}'
  }

  /** The characters Python's `str.strip()` removes (those for which `str.isspace` holds). */
  predicate IsPySpace(c: char)
  {
    ('\t' <= c <= '\r') || ('\U{1C}' <= c <= '\U{1F}') || c == ' ' || c == '\U{85}'
    || c == '\U{A0}' || c == '\U{1680}' || ('\U{2000}' <= c <= '\U{200A}')
    || c == '\U{2028}' || c == '\U{2029}' || c == '\U{202F}' || c == '\U{205F}'
    || c == '\U{3000}'
  }

  /** `trim()` in JavaScript when `js` holds, `strip()` in Python otherwise. */
  predicate IsSpace(c: char, js: bool)
  {
    if js then IsJsSpace(c) else IsPySpace(c)
  }

  function TrimStart(s: string, js: bool): (r: string)
    ensures |r| <= |s| && r == s[|s| - |r|..]
    ensures r != [] ==> !IsSpace(r[0], js)
    ensures forall i :: 0 <= i < |s| - |r| ==> IsSpace(s[i], js)
  {
    if s != [] && IsSpace(s[0], js) then TrimStart(s[1..], js) else s
  }

  function TrimEnd(s: string, js: bool): (r: string)
    ensures |r| <= |s| && r == s[..|r|]
    ensures r != [] ==> !IsSpace(r[|r| - 1], js)
    ensures forall i :: |r| <= i < |s| ==> IsSpace(s[i], js)
  {
    if s != [] && IsSpace(s[|s| - 1], js) then TrimEnd(s[..|s| - 1], js) else s
  }

  /** `r` is the slice of `s` starting at `i`, with only whitespace before and after it. */
  predicate TrimmedAt(s: string, r: string, i: int, js: bool)
  {
    && 0 <= i <= |s| - |r| && r == s[i..i + |r|]
    && (forall j :: 0 <= j < i ==> IsSpace(s[j], js))
    && (forall j :: i + |r| <= j < |s| ==> IsSpace(s[j], js))
  }

  /** `r` is `s` with its leading and trailing whitespace removed and nothing else: a
      slice of `s` with only whitespace around it that neither starts nor ends with
      whitespace. */
  predicate IsTrimOf(s: string, r: string, js: bool)
  {
    && (exists i :: 0 <= i <= |s| && TrimmedAt(s, r, i, js))
    && (r != [] ==> !IsSpace(r[0], js) && !IsSpace(r[|r| - 1], js))
  }

  /** Removes leading and trailing whitespace; the result is a slice of `s`. */
  function Trim(s: string, js: bool): (r: string)
    ensures Contains(s, r)
    ensures IsTrimOf(s, r, js)
  {
    var t := TrimStart(s, js);
    var u := TrimEnd(t, js);
    TrimSlice(s, js);
    assert u <= s[|s| - |t|..];
    u
  }

  lemma TrimSlice(s: string, js: bool)
    ensures TrimmedAt(s, TrimEnd(TrimStart(s, js), js), |s| - |TrimStart(s, js)|, js)
  {
    SliceOfSlice(s, TrimStart(s, js), TrimEnd(TrimStart(s, js), js), js);
  }

  /** A prefix `u` of a suffix `t` of `s`, cut off at whitespace on both sides. */
  lemma SliceOfSlice(s: string, t: string, u: string, js: bool)
    requires |t| <= |s| && t == s[|s| - |t|..]
    requires forall j :: 0 <= j < |s| - |t| ==> IsSpace(s[j], js)
    requires |u| <= |t| && u == t[..|u|]
    requires forall j :: |u| <= j < |t| ==> IsSpace(t[j], js)
    ensures TrimmedAt(s, u, |s| - |t|, js)
  {
    var i := |s| - |t|;
    assert u == s[i..i + |u|];
    forall j | i + |u| <= j < |s| ensures IsSpace(s[j], js) {
      assert s[j] == t[j - i];
    }
  }

  /** Every character of a trimmed string is a character of the original. */
  lemma TrimChars(s: string, js: bool, k: nat)
    requires k < |Trim(s, js)|
    ensures Trim(s, js)[k] in s
  {
    var r := Trim(s, js);
    var i :| 0 <= i <= |s| && r <= s[i..];
    assert r[k] == s[i..][k] == s[i + k];
  }

  /** Every character of `s` satisfies `p`. */
  predicate AllChars(s: string, p: char -> bool)
  {
    forall j :: 0 <= j < |s| ==> p(s[j])
  }

  /** Trimming keeps a property every character has. */
  lemma TrimAllChars(s: string, js: bool, p: char -> bool)
    requires AllChars(s, p)
    ensures AllChars(Trim(s, js), p)
  {
    var r := Trim(s, js);
    forall k | 0 <= k < |r| ensures p(r[k]) {
      TrimChars(s, js, k);
    }
  }

  /** `needle` occurs in `hay` at some position (JavaScript `includes`, Python `in`). */
  predicate Contains(hay: string, needle: string)
  {
    exists i :: 0 <= i <= |hay| && needle <= hay[i..]
  }

  /** Python `str.split(sep)` and JavaScript `split` on a single-character class:
      every separator character ends a piece, so empty pieces are kept. */
  function SplitEach(s: string, sep: char -> bool): (r: seq<string>)
    ensures |r| >= 1
    ensures forall k, j :: 0 <= k < |r| && 0 <= j < |r[k]| ==> !sep(r[k][j])
    decreases |s|
  {
    if forall j :: 0 <= j < |s| ==> !sep(s[j]) then [s]
    else
      var i := FirstWhere(s, sep);
      [s[..i]] + SplitEach(s[i + 1..], sep)
  }

  /** The pieces with the separator between each two (`Array.prototype.join`,
      Python `str.join`). */
  function Join(parts: seq<string>, sep: string): string
  {
    if parts == [] then ""
    else if |parts| == 1 then parts[0]
    else parts[0] + sep + Join(parts[1..], sep)
  }

  /** Splitting on a single separator character and joining with it gives the string
      back: nothing is lost or added. */
  lemma {:induction false} SplitEachJoin(s: string, sep: char -> bool, c: char)
    requires forall x :: sep(x) <==> x == c
    ensures Join(SplitEach(s, sep), [c]) == s
    decreases |s|
  {
    if !forall j :: 0 <= j < |s| ==> !sep(s[j]) {
      var i := FirstWhere(s, sep);
      SplitEachJoin(s[i + 1..], sep, c);
      SplitEachStep(s, sep, i);
      JoinCons(s[..i], SplitEach(s[i + 1..], sep), [c]);
      assert s[i] == c;
      SplitAt(s, i);
    }
  }

  /** A string is the part before index `i`, the character at `i` and the part after. */
  lemma SplitAt(s: string, i: nat)
    requires i < |s|
    ensures s == s[..i] + [s[i]] + s[i + 1..]
  {
    assert s[..i] + [s[i]] == s[..i + 1];
  }

  lemma SplitEachStep(s: string, sep: char -> bool, i: nat)
    requires !forall j :: 0 <= j < |s| ==> !sep(s[j])
    requires i == FirstWhere(s, sep)
    ensures SplitEach(s, sep) == [s[..i]] + SplitEach(s[i + 1..], sep)
  {
    assert sep(s[i]);
    assert SplitEach(s, sep)[1..] == SplitEach(s[i + 1..], sep);
    assert SplitEach(s, sep)[0] == s[..i];
  }

  lemma JoinCons(p: string, rest: seq<string>, sep: string)
    requires rest != []
    ensures Join([p] + rest, sep) == p + sep + Join(rest, sep)
  {
    assert ([p] + rest)[1..] == rest;
  }

  /** JavaScript `split(/\s+/)`: pieces between maximal runs of whitespace; a leading
      or trailing run gives an empty first or last piece, and `""` gives `[""]`. */
  function SplitRuns(s: string): (r: seq<string>)
    ensures |r| >= 1
    ensures forall k, j :: 0 <= k < |r| && 0 <= j < |r[k]| ==> !IsJsSpace(r[k][j])
    decreases |s|
  {
    if forall j :: 0 <= j < |s| ==> !IsJsSpace(s[j]) then [s]
    else
      var i := FirstWhere(s, IsJsSpace);
      TrimStartShorter(s[i..], true);
      var rest := SplitRuns(TrimStart(s[i..], true));
      PiecesCons(s, i, rest, IsJsSpace);
      [s[..i]] + rest
  }

  /** The whitespace runs `SplitRuns` cuts at, in order. */
  function Gaps(s: string): (r: seq<string>)
    decreases |s|
  {
    if forall j :: 0 <= j < |s| ==> !IsJsSpace(s[j]) then []
    else
      var i := FirstWhere(s, IsJsSpace);
      TrimStartShorter(s[i..], true);
      [LeadingSpace(s[i..])] + Gaps(TrimStart(s[i..], true))
  }

  /** The run of JavaScript whitespace `TrimStart` drops from the front of `s`. */
  function LeadingSpace(s: string): (r: string)
    ensures forall k :: 0 <= k < |r| ==> IsJsSpace(r[k])
    ensures s != [] && IsJsSpace(s[0]) ==> r != []
  {
    if s != [] && IsJsSpace(s[0]) then [s[0]] + LeadingSpace(s[1..]) else []
  }

  /** The leading run and the trimmed rest make up the string. */
  lemma {:induction false} LeadingSpaceTrim(s: string)
    ensures LeadingSpace(s) + TrimStart(s, true) == s
  {
    if s != [] && IsJsSpace(s[0]) {
      LeadingSpaceTrim(s[1..]);
      assert LeadingSpace(s) == [s[0]] + LeadingSpace(s[1..]);
      assert TrimStart(s, true) == TrimStart(s[1..], true);
      assert s == [s[0]] + s[1..];
    }
  }

  /** The pieces with `gaps[k]` between `pieces[k]` and `pieces[k + 1]`. */
  function Interleave(pieces: seq<string>, gaps: seq<string>): string
    requires |pieces| == |gaps| + 1
  {
    if gaps == [] then pieces[0] else pieces[0] + gaps[0] + Interleave(pieces[1..], gaps[1..])
  }

  /** `split(/\s+/)` loses nothing but the whitespace runs: the pieces with the runs put
      back between them give the string, every run is non-empty whitespace, and only
      the first and last piece can be empty. Together with the pieces holding no
      whitespace, this fixes the split uniquely. */
  lemma {:induction false} SplitRunsGaps(s: string)
    ensures |SplitRuns(s)| == |Gaps(s)| + 1
    ensures Interleave(SplitRuns(s), Gaps(s)) == s
    ensures forall k, j :: 0 <= k < |Gaps(s)| && 0 <= j < |Gaps(s)[k]| ==> IsJsSpace(Gaps(s)[k][j])
    ensures forall k :: 0 <= k < |Gaps(s)| ==> Gaps(s)[k] != []
    ensures forall k :: 0 < k < |SplitRuns(s)| - 1 ==> SplitRuns(s)[k] != []
    decreases |s|
  {
    if !forall j :: 0 <= j < |s| ==> !IsJsSpace(s[j]) {
      var p, g, t := RunsStep(s);
      SplitRunsGaps(t);
      var ps, gs := SplitRuns(t), Gaps(t);
      if |ps| > 1 {
        FirstPieceNonEmpty(t);
      }
      GapStep(s, p, g, t, ps, gs, SplitRuns(s), Gaps(s));
    }
  }

  /** One unfolding of `SplitRuns` and `Gaps` together: `s` is the first piece `p`,
      the run `g` after it, and the rest `t`. */
  lemma RunsStep(s: string) returns (p: string, g: string, t: string)
    requires !forall j :: 0 <= j < |s| ==> !IsJsSpace(s[j])
    ensures s == p + g + t && |t| < |s|
    ensures g != [] && forall j :: 0 <= j < |g| ==> IsJsSpace(g[j])
    ensures t != [] ==> !IsJsSpace(t[0])
    ensures SplitRuns(s) == [p] + SplitRuns(t)
    ensures Gaps(s) == [g] + Gaps(t)
  {
    var i := FirstWhere(s, IsJsSpace);
    p, g, t := RunParts(s, i);
    PiecesStep(s, i, t);
    GapsStep(s, i, g, t);
  }

  /** The first piece, run and rest around the first whitespace at `i`. */
  lemma RunParts(s: string, i: nat) returns (p: string, g: string, t: string)
    requires i < |s| && IsJsSpace(s[i])
    ensures p == s[..i] && g == LeadingSpace(s[i..]) && t == TrimStart(s[i..], true)
    ensures s == p + g + t && |t| < |s|
    ensures g != [] && forall j :: 0 <= j < |g| ==> IsJsSpace(g[j])
    ensures t != [] ==> !IsJsSpace(t[0])
  {
    TrimStartShorter(s[i..], true);
    p, g, t := s[..i], LeadingSpace(s[i..]), TrimStart(s[i..], true);
    LeadingSpaceTrim(s[i..]);
    assert s == s[..i] + s[i..] && s[i..] == g + t;
    ConcatAssoc(p, g, t);
  }

  lemma GapsStep(s: string, i: nat, g: string, t: string)
    requires !forall j :: 0 <= j < |s| ==> !IsJsSpace(s[j])
    requires i == FirstWhere(s, IsJsSpace)
    requires g == LeadingSpace(s[i..]) && t == TrimStart(s[i..], true)
    ensures Gaps(s) == [g] + Gaps(t)
  {
    assert IsJsSpace(s[i]);
  }

  lemma ConcatAssoc(a: string, b: string, c: string)
    ensures a + (b + c) == a + b + c
  {
  }

  lemma PiecesStep(s: string, i: nat, t: string)
    requires !forall j :: 0 <= j < |s| ==> !IsJsSpace(s[j])
    requires i == FirstWhere(s, IsJsSpace) && t == TrimStart(s[i..], true)
    ensures SplitRuns(s) == [s[..i]] + SplitRuns(t)
  {
    assert IsJsSpace(s[i]);
    assert SplitRuns(s)[0] == s[..i];
    assert SplitRuns(s)[1..] == SplitRuns(t);
  }

  /** A string that does not start with whitespace but holds some starts with a
      non-empty piece. */
  lemma FirstPieceNonEmpty(t: string)
    requires |SplitRuns(t)| > 1 && (t != [] ==> !IsJsSpace(t[0]))
    ensures SplitRuns(t)[0] != []
  {
  }

  /** One step of `SplitRunsGaps`: the first piece and run in front of the rest. */
  lemma GapStep(s: string, p: string, g: string, t: string, ps: seq<string>, gs: seq<string>,
                P: seq<string>, G: seq<string>)
    requires s == p + g + t
    requires g != [] && forall j :: 0 <= j < |g| ==> IsJsSpace(g[j])
    requires |ps| == |gs| + 1 && Interleave(ps, gs) == t
    requires forall k, j :: 0 <= k < |gs| && 0 <= j < |gs[k]| ==> IsJsSpace(gs[k][j])
    requires forall k :: 0 <= k < |gs| ==> gs[k] != []
    requires forall k :: 0 < k < |ps| - 1 ==> ps[k] != []
    requires |ps| > 1 ==> ps[0] != []
    requires P == [p] + ps && G == [g] + gs
    ensures |P| == |G| + 1 && Interleave(P, G) == s
    ensures forall k, j :: 0 <= k < |G| && 0 <= j < |G[k]| ==> IsJsSpace(G[k][j])
    ensures forall k :: 0 <= k < |G| ==> G[k] != []
    ensures forall k :: 0 < k < |P| - 1 ==> P[k] != []
  {
    assert P[1..] == ps && G[1..] == gs;
    forall k, j | 0 <= k < |G| && 0 <= j < |G[k]| ensures IsJsSpace(G[k][j]) {
      if k > 0 {
        assert G[k] == gs[k - 1];
      }
    }
    forall k | 0 <= k < |G| ensures G[k] != [] {
      if k > 0 {
        assert G[k] == gs[k - 1];
      }
    }
    forall k | 0 < k < |P| - 1 ensures P[k] != [] {
      assert P[k] == ps[k - 1];
    }
  }

  /** A piece free of separators in front of pieces free of them. */
  lemma PiecesCons(s: string, i: nat, rest: seq<string>, sep: char -> bool)
    requires i <= |s| && forall j :: 0 <= j < i ==> !sep(s[j])
    requires forall k, j :: 0 <= k < |rest| && 0 <= j < |rest[k]| ==> !sep(rest[k][j])
    ensures forall k, j :: 0 <= k < |[s[..i]] + rest| && 0 <= j < |([s[..i]] + rest)[k]| ==>
      !sep(([s[..i]] + rest)[k][j])
  {
    var r := [s[..i]] + rest;
    forall k, j | 0 <= k < |r| && 0 <= j < |r[k]| ensures !sep(r[k][j]) {
      if k > 0 {
        assert r[k] == rest[k - 1];
      } else {
        assert r[k][j] == s[j];
      }
    }
  }

  /** Trimming a string that starts with whitespace shortens it. */
  lemma TrimStartShorter(s: string, js: bool)
    requires s != [] && IsSpace(s[0], js)
    ensures |TrimStart(s, js)| < |s|
  {
  }

  /** The index of the first character satisfying `p`. */
  function FirstWhere(s: string, p: char -> bool): (i: nat)
    requires exists j :: 0 <= j < |s| && p(s[j])
    ensures i < |s| && p(s[i])
    ensures forall j :: 0 <= j < i ==> !p(s[j])
  {
    if p(s[0]) then 0 else 1 + FirstWhere(s[1..], p)
  }

  /** Python `s.replace(pat, '')`: deletes every non-overlapping occurrence of `pat`,
      scanning from the left. */
  function RemoveAll(s: string, pat: string): (r: string)
    requires pat != []
    ensures |r| <= |s|
    decreases |s|
  {
    if |s| < |pat| then s
    else if pat <= s then RemoveAll(s[|pat|..], pat)
    else [s[0]] + RemoveAll(s[1..], pat)
  }

  /** Deletes every character satisfying `p` (JavaScript `replace(/[...]/g, '')`). */
  function RemoveChars(s: string, p: char -> bool): (r: string)
    ensures |r| <= |s|
    ensures forall j :: 0 <= j < |r| ==> !p(r[j]) && r[j] in s
  {
    if s == [] then [] else (if p(s[0]) then [] else [s[0]]) + RemoveChars(s[1..], p)
  }

  /** Decimal rendering of a natural number, as a template literal prints it. */
  function NatToString(n: nat): (r: string)
    ensures |r| >= 1
    ensures forall j :: 0 <= j < |r| ==> '0' <= r[j] <= '9'
    decreases n
  {
    var d := ['0' + (n % 10) as char];
    if n < 10 then d else NatToString(n / 10) + d
  }
}
