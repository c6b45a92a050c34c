/**
 * The string primitives the command engine relies on, stated over `seq<char>`:
 * ASCII lower-casing, `trim`, `split(/ +/)`, `join`, `includes` and a global
 * literal `replace`.
 */
module Text {
  import opened Wrappers

  /** The characters `trim` removes, restricted to ASCII: space, tab, LF, VT, FF, CR. */
  predicate IsWhitespace(c: char) {
    c == ' ' || '\t' <= c <= '\r'
  }

  predicate IsUpper(c: char) {
    'A' <= c <= 'Z'
  }

  function LowerChar(c: char): char {
    if IsUpper(c) then (c as int + 32) as char else c
  }

  /** `toLowerCase`, on the ASCII letters only. */
  function ToLower(s: string): (r: string)
    ensures |r| == |s| && forall i :: 0 <= i < |s| ==> !IsUpper(r[i])
  {
    seq(|s|, i requires 0 <= i < |s| => LowerChar(s[i]))
  }

  lemma ToLowerIsLower(s: string)
    ensures |ToLower(s)| == |s|
    ensures forall i :: 0 <= i < |s| ==> !IsUpper(ToLower(s)[i])
    ensures forall i :: 0 <= i < |s| && !IsUpper(s[i]) ==> ToLower(s)[i] == s[i]
    ensures forall i :: 0 <= i < |s| && IsUpper(s[i]) ==> ToLower(s)[i] as int - 'a' as int == s[i] as int - 'A' as int
    ensures ToLower(ToLower(s)) == ToLower(s)
  {
  }

  // ----- trim -----

  function TrimStart(s: string): (r: string)
    ensures |r| <= |s| && r == s[|s| - |r|..]
    ensures forall i :: 0 <= i < |s| - |r| ==> IsWhitespace(s[i])
    ensures r == [] || !IsWhitespace(r[0])
    decreases |s|
  {
    if |s| > 0 && IsWhitespace(s[0]) then TrimStart(s[1..]) else s
  }

  function TrimEnd(s: string): (r: string)
    ensures |r| <= |s| && r == s[..|r|]
    ensures forall i :: |r| <= i < |s| ==> IsWhitespace(s[i])
    ensures r == [] || !IsWhitespace(r[|r| - 1])
    decreases |s|
  {
    if |s| > 0 && IsWhitespace(s[|s| - 1]) then TrimEnd(s[..|s| - 1]) else s
  }

  /**
   * `String.prototype.trim`: the slice of `s` left when its leading and its
   * trailing whitespace are removed; it starts and ends with non-whitespace,
   * and all that is cut off on either side is whitespace.
   */
  function Trim(s: string): (r: string)
    ensures |TrimStart(s)| >= |r|
    ensures r == s[|s| - |TrimStart(s)|..][..|r|]
    ensures AllWhitespace(s[..|s| - |TrimStart(s)|])
    ensures AllWhitespace(TrimStart(s)[|r|..])
    ensures r == [] || (!IsWhitespace(r[0]) && !IsWhitespace(r[|r| - 1]))
  {
    var a := TrimStart(s);
    var r := TrimEnd(a);
    WhitespaceBefore(s, |s| - |a|);
    WhitespaceFrom(a, |r|);
    r
  }

  lemma WhitespaceBefore(s: string, n: nat)
    requires n <= |s| && forall k :: 0 <= k < n ==> IsWhitespace(s[k])
    ensures AllWhitespace(s[..n])
  {
    assert forall k :: 0 <= k < n ==> s[..n][k] == s[k];
  }

  lemma WhitespaceFrom(s: string, n: nat)
    requires n <= |s| && forall k :: n <= k < |s| ==> IsWhitespace(s[k])
    ensures AllWhitespace(s[n..])
  {
    assert forall k :: 0 <= k < |s| - n ==> s[n..][k] == s[n + k];
  }

  predicate AllWhitespace(s: string) {
    forall i :: 0 <= i < |s| ==> IsWhitespace(s[i])
  }

  lemma {:induction false} TrimStartPadded(lead: string, y: string)
    requires AllWhitespace(lead)
    requires y == [] || !IsWhitespace(y[0])
    ensures TrimStart(lead + y) == y
    decreases |lead|
  {
    if lead != [] {
      assert (lead + y)[1..] == lead[1..] + y;
      TrimStartPadded(lead[1..], y);
    }
  }

  lemma {:induction false} TrimEndPadded(y: string, trail: string)
    requires AllWhitespace(trail)
    requires y == [] || !IsWhitespace(y[|y| - 1])
    ensures TrimEnd(y + trail) == y
    decreases |trail|
  {
    if trail != [] {
      var t := trail[..|trail| - 1];
      assert (y + trail)[..|y + trail| - 1] == y + t;
      TrimEndPadded(y, t);
    }
  }

  /** Trimming strips exactly the whitespace padding around a core that starts and ends with non-whitespace. */
  lemma TrimPadded(lead: string, x: string, trail: string)
    requires AllWhitespace(lead) && AllWhitespace(trail)
    requires x == [] || (!IsWhitespace(x[0]) && !IsWhitespace(x[|x| - 1]))
    ensures Trim(lead + x + trail) == x
  {
    if x == [] {
      assert lead + x + trail == (lead + trail) + [];
      TrimStartPadded(lead + trail, []);
    } else {
      assert lead + x + trail == lead + (x + trail);
      TrimStartPadded(lead, x + trail);
      TrimEndPadded(x, trail);
    }
  }

  // ----- split(/ +/) and join -----

  /** Number of leading characters of `s` that are not a space. */
  function NonSpacePrefix(s: string): (n: nat)
    ensures n <= |s|
    ensures forall i :: 0 <= i < n ==> s[i] != ' '
    ensures n < |s| ==> s[n] == ' '
  {
    if |s| == 0 || s[0] == ' ' then 0 else 1 + NonSpacePrefix(s[1..])
  }

  /** Number of leading spaces of `s`. */
  function SpacePrefix(s: string): (n: nat)
    ensures n <= |s|
    ensures forall i :: 0 <= i < n ==> s[i] == ' '
    ensures n < |s| ==> s[n] != ' '
  {
    if |s| == 0 || s[0] != ' ' then 0 else 1 + SpacePrefix(s[1..])
  }

  /**
   * `s.split(/ +/)`: the pieces between maximal runs of spaces. A leading run
   * gives an empty first piece, a trailing run an empty last piece, and the
   * empty string gives `[""]`.
   */
  function SplitSpaces(s: string): (r: seq<string>)
    ensures |r| >= 1
    ensures forall k :: 0 <= k < |r| ==> ' ' !in r[k]
    decreases |s|
  {
    var i := NonSpacePrefix(s);
    if i == |s| then
      [s]
    else
      var j := i + SpacePrefix(s[i..]);
      [s[..i]] + SplitSpaces(s[j..])
  }

  /** `pieces.join(sep)`. */
  function JoinWith(pieces: seq<string>, sep: string): (r: string)
    ensures |pieces| > 0 ==> pieces[0] <= r
    ensures |pieces| > 1 ==> pieces[0] + sep <= r
  {
    if |pieces| == 0 then ""
    else if |pieces| == 1 then pieces[0]
    else pieces[0] + sep + JoinWith(pieces[1..], sep)
  }

  predicate AllSpaces(g: string) {
    forall i :: 0 <= i < |g| ==> g[i] == ' '
  }

  /** Tokens separated by arbitrary non-empty runs of spaces, the `i`-th run being `gaps[i]`. */
  function JoinGaps(ts: seq<string>, gaps: seq<string>): string
    requires |ts| >= 1 && |gaps| == |ts| - 1
  {
    if |ts| == 1 then ts[0] else ts[0] + gaps[0] + JoinGaps(ts[1..], gaps[1..])
  }

  predicate IsToken(t: string) {
    t != [] && ' ' !in t
  }

  lemma NonSpacePrefixOf(t: string, y: string)
    requires ' ' !in t
    requires y == [] || y[0] == ' '
    ensures NonSpacePrefix(t + y) == |t|
  {
    assert forall i :: 0 <= i < |t| ==> (t + y)[i] == t[i];
    assert |t| < |t + y| ==> (t + y)[|t|] == y[0];
  }

  lemma SpacePrefixOf(g: string, y: string)
    requires AllSpaces(g)
    requires y == [] || y[0] != ' '
    ensures SpacePrefix(g + y) == |g|
  {
    assert forall i :: 0 <= i < |g| ==> (g + y)[i] == g[i];
    assert |g| < |g + y| ==> (g + y)[|g|] == y[0];
  }

  lemma {:induction false} JoinGapsStart(ts: seq<string>, gaps: seq<string>)
    requires |ts| >= 1 && |gaps| == |ts| - 1
    requires IsToken(ts[0])
    ensures JoinGaps(ts, gaps) != [] && JoinGaps(ts, gaps)[0] == ts[0][0]
  {
  }

  lemma SplitSpacesUnfold(s: string, i: nat, j: nat, head: string, tail: string)
    requires NonSpacePrefix(s) == i < |s| && i + SpacePrefix(s[i..]) == j
    requires head == s[..i] && tail == s[j..]
    ensures SplitSpaces(s) == [head] + SplitSpaces(tail)
  {
  }

  /** One token, one run of spaces, then text that starts with a non-space: the token is split off. */
  lemma SplitStep(t: string, g: string, rest: string)
    requires IsToken(t) && g != [] && AllSpaces(g) && rest != [] && rest[0] != ' '
    ensures SplitSpaces(t + (g + rest)) == [t] + SplitSpaces(rest)
  {
    var s := t + (g + rest);
    assert (g + rest)[0] == ' ';
    NonSpacePrefixOf(t, g + rest);
    var i := |t|;
    assert s[i..] == g + rest;
    SpacePrefixOf(g, rest);
    assert s[i + |g|..] == rest;
    assert s[..i] == t;
    SplitSpacesUnfold(s, i, i + |g|, t, rest);
  }

  /** Splitting undoes joining: `split(/ +/)` recovers the tokens whatever the width of each gap. */
  lemma {:induction false} SplitJoinGaps(ts: seq<string>, gaps: seq<string>)
    requires |ts| >= 1 && |gaps| == |ts| - 1
    requires forall k :: 0 <= k < |ts| ==> IsToken(ts[k])
    requires forall k :: 0 <= k < |gaps| ==> gaps[k] != [] && AllSpaces(gaps[k])
    ensures SplitSpaces(JoinGaps(ts, gaps)) == ts
  {
    if |ts| == 1 {
      NonSpacePrefixOf(ts[0], []);
      assert ts[0] + [] == ts[0];
    } else {
      var rest := JoinGaps(ts[1..], gaps[1..]);
      assert JoinGaps(ts, gaps) == ts[0] + (gaps[0] + rest);
      JoinGapsStart(ts[1..], gaps[1..]);
      SplitStep(ts[0], gaps[0], rest);
      SplitJoinGaps(ts[1..], gaps[1..]);
      assert ts == [ts[0]] + ts[1..];
    }
  }

  /** Joining with single spaces is the special case of gaps that are all one space wide. */
  lemma {:induction false} JoinWithSpace(ts: seq<string>)
    requires |ts| >= 1
    ensures JoinWith(ts, " ") == JoinGaps(ts, seq(|ts| - 1, _ => " "))
  {
    if |ts| > 1 {
      JoinWithSpace(ts[1..]);
      assert seq(|ts| - 1, _ => " ")[1..] == seq(|ts| - 2, _ => " ");
    }
  }

  /** `split(/ +/)` after `join(' ')` is the identity on space-free, non-empty tokens. */
  lemma SplitJoinSpaces(ts: seq<string>)
    requires |ts| >= 1
    requires forall k :: 0 <= k < |ts| ==> IsToken(ts[k])
    ensures SplitSpaces(JoinWith(ts, " ")) == ts
  {
    var gaps := seq(|ts| - 1, _ => " ");
    JoinWithSpace(ts);
    forall k | 0 <= k < |gaps| ensures gaps[k] != [] && AllSpaces(gaps[k]) {
      assert gaps[k] == " ";
    }
    SplitJoinGaps(ts, gaps);
  }

  // ----- includes and indexOf -----

  predicate OccursAt(s: string, p: string, i: int) {
    0 <= i && i + |p| <= |s| && s[i..i + |p|] == p
  }

  lemma OccursShift(s: string, p: string, j: int)
    requires |s| > 0 && j >= 1
    ensures OccursAt(s, p, j) <==> OccursAt(s[1..], p, j - 1)
  {
    if j + |p| <= |s| {
      assert s[1..][j - 1..j - 1 + |p|] == s[j..j + |p|];
    }
  }

  /** `s.indexOf(p)`: the leftmost position at which `p` occurs in `s`. */
  function IndexOf(s: string, p: string): (r: Option<nat>)
    ensures r.Some? ==> OccursAt(s, p, r.value)
    ensures r.Some? ==> forall j :: 0 <= j < r.value ==> !OccursAt(s, p, j)
    ensures r.None? ==> forall j :: !OccursAt(s, p, j)
    decreases |s|
  {
    if |p| <= |s| && s[..|p|] == p then Some(0)
    else if |s| == 0 then None
    else
      var r := IndexOf(s[1..], p);
      assert forall j :: j >= 1 ==> (OccursAt(s, p, j) <==> OccursAt(s[1..], p, j - 1)) by {
        forall j | j >= 1 ensures OccursAt(s, p, j) <==> OccursAt(s[1..], p, j - 1) {
          OccursShift(s, p, j);
        }
      }
      match r
      case None => None
      case Some(i) => Some(i + 1)
  }

  /** `s.includes(p)`. */
  predicate Contains(s: string, p: string): (b: bool)
    ensures p == [] ==> b
    ensures b ==> |p| <= |s|
  {
    IndexOf(s, p).Some?
  }

  lemma ContainsIff(s: string, p: string)
    ensures Contains(s, p) <==> exists i :: OccursAt(s, p, i)
  {
  }

  lemma ContainsAt(s: string, p: string, i: int)
    requires OccursAt(s, p, i)
    ensures Contains(s, p)
  {
  }

  // ----- replace(/p/g, r) -----

  /** `s.split(p)` for a non-empty literal separator: the pieces between the leftmost non-overlapping occurrences. */
  function SplitOn(s: string, p: string): (r: seq<string>)
    requires |p| > 0
    ensures |r| >= 1
    decreases |s|
  {
    match IndexOf(s, p)
    case None => [s]
    case Some(i) => [s[..i]] + SplitOn(s[i + |p|..], p)
  }

  /** `s.replace(/p/g, r)` with a literal pattern and a literal replacement. */
  function ReplaceAll(s: string, p: string, r: string): (out: string)
    requires |p| > 0
    ensures !Contains(s, p) ==> out == s
    decreases |s|
  {
    match IndexOf(s, p)
    case None => s
    case Some(i) => s[..i] + r + ReplaceAll(s[i + |p|..], p, r)
  }

  lemma PrefixFree(s: string, p: string, i: nat)
    requires |p| > 0 && i <= |s|
    requires forall j :: 0 <= j < i ==> !OccursAt(s, p, j)
    ensures !Contains(s[..i], p)
  {
    forall j | 0 <= j ensures !OccursAt(s[..i], p, j) {
      if j + |p| <= i {
        assert s[..i][j..j + |p|] == s[j..j + |p|];
        assert OccursAt(s[..i], p, j) ==> OccursAt(s, p, j);
      }
    }
  }

  /** No piece of `s.split(p)` contains `p`. */
  lemma {:induction false} SplitOnPiecesFree(s: string, p: string)
    requires |p| > 0
    ensures forall k :: 0 <= k < |SplitOn(s, p)| ==> !Contains(SplitOn(s, p)[k], p)
    decreases |s|
  {
    match IndexOf(s, p)
    case None =>
    case Some(i) =>
      PrefixFree(s, p, i);
      SplitOnPiecesFree(s[i + |p|..], p);
  }

  lemma JoinWithCons(x: string, pieces: seq<string>, sep: string)
    requires |pieces| >= 1
    ensures JoinWith([x] + pieces, sep) == x + sep + JoinWith(pieces, sep)
  {
    assert ([x] + pieces)[1..] == pieces;
  }

  lemma SplitOnAt(s: string, p: string, i: nat)
    requires |p| > 0 && IndexOf(s, p) == Some(i)
    ensures SplitOn(s, p) == [s[..i]] + SplitOn(s[i + |p|..], p)
  {
  }

  lemma SplitOnNone(s: string, p: string)
    requires |p| > 0 && IndexOf(s, p) == None
    ensures SplitOn(s, p) == [s]
  {
  }

  lemma AroundOccurrence(s: string, p: string, i: nat)
    requires OccursAt(s, p, i)
    ensures s == s[..i] + p + s[i + |p|..]
  {
    assert s[i..i + |p|] == p;
  }

  /** `s.split(p).join(p) == s`. */
  lemma {:induction false} JoinSplitOn(s: string, p: string)
    requires |p| > 0
    ensures JoinWith(SplitOn(s, p), p) == s
    decreases |s|
  {
    var o := IndexOf(s, p);
    if o.Some? {
      var i := o.value;
      var rest := s[i + |p|..];
      JoinSplitOn(rest, p);
      SplitOnAt(s, p, i);
      JoinWithCons(s[..i], SplitOn(rest, p), p);
      AroundOccurrence(s, p, i);
    } else {
      SplitOnNone(s, p);
    }
  }

  /** Global replacement is `split(p).join(r)`: every occurrence found by the left-to-right scan is replaced, and nothing else changes. */
  lemma {:induction false} ReplaceAllIsSplitJoin(s: string, p: string, r: string)
    requires |p| > 0
    ensures ReplaceAll(s, p, r) == JoinWith(SplitOn(s, p), r)
    decreases |s|
  {
    match IndexOf(s, p)
    case None =>
    case Some(i) =>
      var pieces := SplitOn(s[i + |p|..], p);
      ReplaceAllIsSplitJoin(s[i + |p|..], p, r);
      assert SplitOn(s, p) == [s[..i]] + pieces;
      assert ([s[..i]] + pieces)[1..] == pieces;
  }

  lemma OccursAfter(a: string, b: string, p: string, i: int)
    requires i >= 0
    ensures OccursAt(a + b, p, |a| + i) <==> OccursAt(b, p, i)
  {
    if |a| + i + |p| <= |a + b| {
      assert (a + b)[|a| + i..|a| + i + |p|] == b[i..i + |p|];
    }
  }

  lemma NoOccurrenceInFree(a: string, b: string, p: string, j: int)
    requires |p| > 0 && p[0] !in a && 0 <= j < |a|
    ensures !OccursAt(a + b, p, j)
  {
    if j + |p| <= |a + b| {
      assert (a + b)[j..j + |p|][0] == a[j];
    }
  }

  /** The leftmost occurrence is the only index with IndexOf's postcondition. */
  lemma IndexOfIs(s: string, p: string, k: nat)
    requires OccursAt(s, p, k)
    requires forall j :: 0 <= j < k ==> !OccursAt(s, p, j)
    ensures IndexOf(s, p) == Some(k)
  {
  }

  lemma IndexOfIsNone(s: string, p: string)
    requires forall j :: !OccursAt(s, p, j)
    ensures IndexOf(s, p) == None
  {
  }

  /** No occurrence of `p` in `a + b` starts inside `a`. */
  predicate NoneStartsIn(a: string, b: string, p: string) {
    forall j :: 0 <= j < |a| ==> !OccursAt(a + b, p, j)
  }

  lemma FreeNoneStartsIn(a: string, b: string, p: string)
    requires |p| > 0 && p[0] !in a
    ensures NoneStartsIn(a, b, p)
  {
    forall j | 0 <= j < |a| ensures !OccursAt(a + b, p, j) {
      NoOccurrenceInFree(a, b, p, j);
    }
  }

  /** A prefix in which no occurrence starts shifts every match by its length. */
  lemma IndexOfAfterSome(a: string, b: string, p: string, i: nat)
    requires NoneStartsIn(a, b, p) && IndexOf(b, p) == Some(i)
    ensures IndexOf(a + b, p) == Some(|a| + i)
  {
    forall j | |a| <= j < |a| + i ensures !OccursAt(a + b, p, j) {
      OccursAfter(a, b, p, j - |a|);
    }
    OccursAfter(a, b, p, i);
    IndexOfIs(a + b, p, |a| + i);
  }

  lemma IndexOfAfterNone(a: string, b: string, p: string)
    requires NoneStartsIn(a, b, p) && IndexOf(b, p) == None
    ensures IndexOf(a + b, p) == None
  {
    forall j | j >= |a| ensures !OccursAt(a + b, p, j) {
      OccursAfter(a, b, p, j - |a|);
    }
    IndexOfIsNone(a + b, p);
  }

  lemma ReplaceAllAt(s: string, p: string, r: string, i: nat, before: string, after: string)
    requires |p| > 0 && IndexOf(s, p) == Some(i)
    requires before == s[..i] && after == s[i + |p|..]
    ensures ReplaceAll(s, p, r) == before + r + ReplaceAll(after, p, r)
  {
  }

  lemma ReplaceAllNone(s: string, p: string, r: string)
    requires |p| > 0 && IndexOf(s, p) == None
    ensures ReplaceAll(s, p, r) == s
  {
  }

  lemma ConcatAssoc(a: string, x: string, r: string, t: string)
    ensures (a + x) + r + t == a + (x + r + t)
  {
  }

  /** Replacement passes over a stretch of text in which no match starts. */
  lemma ReplaceAllAfter(a: string, b: string, p: string, r: string)
    requires |p| > 0 && NoneStartsIn(a, b, p)
    ensures ReplaceAll(a + b, p, r) == a + ReplaceAll(b, p, r)
  {
    var s := a + b;
    var o := IndexOf(b, p);
    if o.Some? {
      var i := o.value;
      IndexOfAfterSome(a, b, p, i);
      var tail := b[i + |p|..];
      assert s[..|a| + i] == a + b[..i];
      assert s[|a| + i + |p|..] == tail;
      ReplaceAllAt(s, p, r, |a| + i, a + b[..i], tail);
      ReplaceAllAt(b, p, r, i, b[..i], tail);
      ConcatAssoc(a, b[..i], r, ReplaceAll(tail, p, r));
    } else {
      IndexOfAfterNone(a, b, p);
      ReplaceAllNone(s, p, r);
      ReplaceAllNone(b, p, r);
    }
  }

  /** In particular text without the pattern's first character is passed over. */
  lemma ReplaceAllAfterFree(a: string, b: string, p: string, r: string)
    requires |p| > 0 && p[0] !in a
    ensures ReplaceAll(a + b, p, r) == a + ReplaceAll(b, p, r)
  {
    FreeNoneStartsIn(a, b, p);
    ReplaceAllAfter(a, b, p, r);
  }

  /** Text without the pattern's first character is left as it is. */
  lemma ReplaceAllFree(s: string, p: string, r: string)
    requires |p| > 0 && p[0] !in s
    ensures ReplaceAll(s, p, r) == s
  {
    ReplaceAllAfterFree(s, "", p, r);
    assert s + "" == s;
  }

  /** An occurrence at the very start is replaced, and the scan resumes after it. */
  lemma ReplaceAllAtStart(p: string, b: string, r: string)
    requires |p| > 0
    ensures ReplaceAll(p + b, p, r) == r + ReplaceAll(b, p, r)
  {
    assert (p + b)[..|p|] == p;
    assert (p + b)[|p|..] == b;
  }

  /** Replacing a pattern by itself changes nothing. */
  lemma ReplaceAllSelf(s: string, p: string)
    requires |p| > 0
    ensures ReplaceAll(s, p, p) == s
  {
    ReplaceAllIsSplitJoin(s, p, p);
    JoinSplitOn(s, p);
  }

  // ----- number formatting -----

  function DigitChar(d: nat): char
    requires d < 10
  {
    ('0' as int + d) as char
  }

  /** The decimal rendering of a natural number, as a template literal produces it. */
  function NatToString(n: nat): (r: string)
    ensures |r| >= 1
    ensures forall i :: 0 <= i < |r| ==> '0' <= r[i] <= '9'
    ensures n >= 10 ==> r[0] != '0'
  {
    if n < 10 then [DigitChar(n)] else NatToString(n / 10) + [DigitChar(n % 10)]
  }

  /** The value of a string of decimal digits, read left to right. */
  function DecimalValue(s: string): int
    decreases |s|
  {
    if |s| == 0 then 0 else 10 * DecimalValue(s[..|s| - 1]) + (s[|s| - 1] as int - '0' as int)
  }

  /** Reading the rendering back gives the number. */
  lemma {:induction false} NatToStringValue(n: nat)
    ensures DecimalValue(NatToString(n)) == n
  {
    var s := NatToString(n);
    if n >= 10 {
      NatToStringValue(n / 10);
      assert s[..|s| - 1] == NatToString(n / 10);
    }
  }
}
