/**
 * The `find` helper of `read_pdf`: `re.search(pattern, raw_text, re.IGNORECASE)`
 * and, on a match, the first group stripped of surrounding whitespace.
 *
 * Every pattern the loader uses has the shape
 *     Label  Gap  \s*  ( Tail )
 * where the label is a literal matched ignoring case, the gap is nothing, a
 * lazy `.*?:` or a greedy `.*Second`, and the tail is `.+`, `(?:Vendor No:.*\n)?(.+)`
 * or `[\d,]+\.\d{2}`. Matching follows the backtracking order of Python's
 * regex engine: `re.search` tries each start position from the left; a greedy
 * quantifier tries its longest run first, a lazy one its shortest.
 */
module FieldMatch {
  import opened Wrappers
  import opened Text

  /** What lies between the label and the `\s*` before the group. */
  datatype Gap =
    | NoGap                          // `Label:\s*(...)`
    | LazyToColon                    // `Label.*?:\s*(...)`
    | GreedyToLabel(second: string)  // `Label.*Second\s*(...)`

  /** The captured group. */
  datatype Tail =
    | Rest                           // `(.+)`
    | SkipLineThenRest(skip: string) // `(?:Skip.*\n)?(.+)`
    | Amount                         // `([\d,]+\.\d{2})`

  datatype Pattern = Pattern(prefix: string, gap: Gap, tail: Tail)

  predicate IsDigit(c: char) { '0' <= c <= '9' }

  /** The class `[\d,]`. */
  predicate IsAmountChar(c: char) { IsDigit(c) || c == ',' }

  /** End of the line that holds index `k`: the first newline at or after `k`, or `|s|`. `.` stops there. */
  function LineEnd(s: string, k: nat): (r: nat)
    requires k <= |s|
    ensures k <= r <= |s|
    ensures r < |s| ==> s[r] == '\n'
    decreases |s| - k
  {
    if k == |s| || s[k] == '\n' then k else LineEnd(s, k + 1)
  }

  /** End of the longest whitespace run from `k`: where a greedy `\s*` stops. */
  function SpaceEnd(s: string, k: nat): (r: nat)
    requires k <= |s|
    ensures k <= r <= |s|
    ensures r < |s| ==> !IsSpace(s[r])
    decreases |s| - k
  {
    if k == |s| || !IsSpace(s[k]) then k else SpaceEnd(s, k + 1)
  }

  /** End of the longest `[\d,]` run from `k`. */
  function RunEnd(s: string, k: nat): (r: nat)
    requires k <= |s|
    ensures k <= r <= |s|
    ensures r < |s| ==> !IsAmountChar(s[r])
    decreases |s| - k
  {
    if k == |s| || !IsAmountChar(s[k]) then k else RunEnd(s, k + 1)
  }

  /** No newline lies between `k` and the end of its line. */
  lemma {:induction false} LineEndScan(s: string, k: nat)
    requires k <= |s|
    ensures forall j :: k <= j < LineEnd(s, k) ==> s[j] != '\n'
    decreases |s| - k
  {
    if k < |s| && s[k] != '\n' {
      LineEndScan(s, k + 1);
    }
  }

  /** Every character the greedy `\s*` passes over is whitespace. */
  lemma {:induction false} SpaceEndScan(s: string, k: nat)
    requires k <= |s|
    ensures forall j :: k <= j < SpaceEnd(s, k) ==> IsSpace(s[j])
    decreases |s| - k
  {
    if k < |s| && IsSpace(s[k]) {
      SpaceEndScan(s, k + 1);
    }
  }

  /** Every character of the run is in `[\d,]`. */
  lemma {:induction false} RunEndScan(s: string, k: nat)
    requires k <= |s|
    ensures forall j :: k <= j < RunEnd(s, k) ==> IsAmountChar(s[j])
    decreases |s| - k
  {
    if k < |s| && IsAmountChar(s[k]) {
      RunEndScan(s, k + 1);
    }
  }

  /** `(.+)` at `k`: at least one character, then greedily to the end of the line. */
  function RestAt(s: string, k: nat): Option<string>
    requires k <= |s|
  {
    if k < |s| && s[k] != '\n' then Some(s[k..LineEnd(s, k)]) else None
  }

  /**
   * `([\d,]+\.\d{2})` at `k`. Giving back characters of the run never helps,
   * since the `.` must follow the run and no run character is a `.`: only the
   * longest run can be followed by the point and two digits.
   */
  function AmountAt(s: string, k: nat): Option<string>
    requires k <= |s|
  {
    var r := RunEnd(s, k);
    if k < r && r + 3 <= |s| && s[r] == '.' && IsDigit(s[r + 1]) && IsDigit(s[r + 2])
    then Some(s[k..r + 3])
    else None
  }

  /** The group, when the tail matches at `k`. */
  function TailAt(t: Tail, s: string, k: nat): Option<string>
    requires k <= |s|
  {
    match t
    case Rest => RestAt(s, k)
    case Amount => AmountAt(s, k)
    case SkipLineThenRest(skip) =>
      // The optional group is tried first. Its `.*` runs to the end of the line and the `\n` must
      // follow; a shorter `.*` is never followed by a newline. When the `.+` after it fails, the
      // group is skipped and `.+` is tried at `k`.
      if MatchesFoldAt(s, k, skip) && LineEnd(s, k + |skip|) < |s| && RestAt(s, LineEnd(s, k + |skip|) + 1).Some?
      then RestAt(s, LineEnd(s, k + |skip|) + 1)
      else RestAt(s, k)
  }

  /**
   * `\s*` followed by the tail, where the whitespace run ends at `k`: the
   * tail is tried at `k`, then the `\s*` gives back one character at a time
   * down to `lo`.
   */
  function Backtrack(t: Tail, s: string, lo: nat, k: nat): Option<string>
    requires lo <= k <= |s|
    decreases k - lo
  {
    if TailAt(t, s, k).Some? then TailAt(t, s, k)
    else if k == lo then None
    else Backtrack(t, s, lo, k - 1)
  }

  /** `\s*(Tail)` from `q`. */
  function SpacesThen(t: Tail, s: string, q: nat): Option<string>
    requires q <= |s|
  {
    Backtrack(t, s, q, SpaceEnd(s, q))
  }

  /** A colon at `c` after which `\s*(Tail)` matches. */
  predicate ColonHit(t: Tail, s: string, c: nat)
    requires c < |s|
  {
    s[c] == ':' && SpacesThen(t, s, c + 1).Some?
  }

  /** `.*?:\s*(Tail)` with the lazy `.*?` having consumed `s[..g]` so far: the first colon in the line after which the rest matches. */
  function LazyColon(t: Tail, s: string, g: nat): Option<string>
    requires g <= |s|
    decreases |s| - g
  {
    if g == |s| || s[g] == '\n' then None
    else if ColonHit(t, s, g) then SpacesThen(t, s, g + 1)
    else LazyColon(t, s, g + 1)
  }

  /** An occurrence of the second label at `m` after which `\s*(Tail)` matches. */
  predicate LabelHit(second: string, t: Tail, s: string, m: nat)
  {
    MatchesFoldAt(s, m, second) && SpacesThen(t, s, m + |second|).Some?
  }

  /** `.*Second\s*(Tail)` from `q` with the greedy `.*` ending at `g`: tried from the end of the line back to `q`. */
  function GreedyLabel(second: string, t: Tail, s: string, q: nat, g: nat): Option<string>
    requires q <= g <= |s|
    decreases g - q
  {
    if LabelHit(second, t, s, g) then SpacesThen(t, s, g + |second|)
    else if g == q then None
    else GreedyLabel(second, t, s, q, g - 1)
  }

  /** The part of the pattern after the label, from `q`. */
  function AfterLabel(p: Pattern, s: string, q: nat): Option<string>
    requires q <= |s|
  {
    match p.gap
    case NoGap => SpacesThen(p.tail, s, q)
    case LazyToColon => LazyColon(p.tail, s, q)
    case GreedyToLabel(second) => GreedyLabel(second, p.tail, s, q, LineEnd(s, q))
  }

  /** The group of a match starting at `i`, if the pattern matches there. */
  function MatchAt(p: Pattern, s: string, i: nat): Option<string>
    requires i <= |s|
  {
    if MatchesFoldAt(s, i, p.prefix) then AfterLabel(p, s, i + |p.prefix|) else None
  }

  /** `re.search` from position `i` on: the group of the leftmost match. */
  function Search(p: Pattern, s: string, i: nat): Option<string>
    requires i <= |s|
    decreases |s| - i
  {
    if MatchAt(p, s, i).Some? then MatchAt(p, s, i)
    else if i == |s| then None
    else Search(p, s, i + 1)
  }

  /** `find(pattern)`: the stripped first group of the leftmost match, or None. */
  function Find(p: Pattern, s: string): (r: Option<string>)
    ensures r.Some? ==> IsTrimmed(r.value)
  {
    match Search(p, s, 0)
    case Some(g) => Some(Trim(g))
    case None => None
  }

  // ---------------------------------------------------------------------------
  // re.search: the leftmost match
  // ---------------------------------------------------------------------------

  /** `Search` fails only when the pattern matches nowhere from `i` on. */
  lemma {:induction false} SearchNone(p: Pattern, s: string, i: nat)
    requires i <= |s|
    ensures Search(p, s, i).None? <==> forall j :: i <= j <= |s| ==> MatchAt(p, s, j).None?
    decreases |s| - i
  {
    if MatchAt(p, s, i).None? && i < |s| {
      SearchNone(p, s, i + 1);
    }
  }

  /** `Search` finds the match that starts leftmost: `j` is where it starts. */
  lemma {:induction false} SearchLeftmost(p: Pattern, s: string, i: nat) returns (j: nat)
    requires i <= |s| && Search(p, s, i).Some?
    ensures i <= j <= |s| && Search(p, s, i) == MatchAt(p, s, j)
    ensures forall j' :: i <= j' < j ==> MatchAt(p, s, j').None?
    decreases |s| - i
  {
    if MatchAt(p, s, i).Some? {
      j := i;
    } else {
      assert i < |s| && Search(p, s, i) == Search(p, s, i + 1);
      j := SearchLeftmost(p, s, i + 1);
    }
  }

  /** `find` returns None exactly when the pattern matches nowhere, and otherwise the stripped group of the leftmost match. */
  lemma FindSpec(p: Pattern, s: string)
    ensures Find(p, s).None? <==> forall j :: 0 <= j <= |s| ==> MatchAt(p, s, j).None?
    ensures Find(p, s).Some? ==>
      exists j :: 0 <= j <= |s| && MatchAt(p, s, j).Some? && Find(p, s) == Some(Trim(MatchAt(p, s, j).value))
        && forall j' :: 0 <= j' < j ==> MatchAt(p, s, j').None?
  {
    SearchNone(p, s, 0);
    if Search(p, s, 0).Some? {
      var j := SearchLeftmost(p, s, 0);
    }
  }

  /** Where the match `find` reports starts: the leftmost position where the pattern matches. */
  lemma FindAt(p: Pattern, s: string) returns (j: nat)
    requires Find(p, s).Some?
    ensures j <= |s| && MatchAt(p, s, j).Some? && Find(p, s) == Some(Trim(MatchAt(p, s, j).value))
    ensures forall j' :: 0 <= j' < j ==> MatchAt(p, s, j').None?
  {
    FindSpec(p, s);
    j :| 0 <= j <= |s| && MatchAt(p, s, j).Some? && Find(p, s) == Some(Trim(MatchAt(p, s, j).value))
      && forall j' :: 0 <= j' < j ==> MatchAt(p, s, j').None?;
  }

  /** A match at `i` with none to its left is the one `find` reports. */
  lemma FindLeftmost(p: Pattern, s: string, i: nat)
    requires i <= |s| && MatchAt(p, s, i).Some?
    requires forall j :: 0 <= j < i ==> MatchAt(p, s, j).None?
    ensures Find(p, s) == Some(Trim(MatchAt(p, s, i).value))
  {
    FindSomeOfMatch(p, s, i);
    var j := FindAt(p, s);
    assert j == i;
  }

  /** A match anywhere makes `find` succeed. */
  lemma FindSomeOfMatch(p: Pattern, s: string, i: nat)
    requires i <= |s| && MatchAt(p, s, i).Some?
    ensures Find(p, s).Some?
  {
    SearchNone(p, s, 0);
  }

  // ---------------------------------------------------------------------------
  // Backtracking order inside one match
  // ---------------------------------------------------------------------------

  /** `\s*` then the tail fails only when the tail matches at no position in `[lo, k]`. */
  lemma {:induction false} BacktrackNone(t: Tail, s: string, lo: nat, k: nat)
    requires lo <= k <= |s|
    ensures Backtrack(t, s, lo, k).None? <==> forall j :: lo <= j <= k ==> TailAt(t, s, j).None?
    decreases k - lo
  {
    if TailAt(t, s, k).None? && k > lo {
      BacktrackNone(t, s, lo, k - 1);
    }
  }

  /** `\s*` gives back as little as it can: the group is that of the largest tail position `j` in `[lo, k]` where the tail matches. */
  lemma {:induction false} BacktrackLongestFirst(t: Tail, s: string, lo: nat, k: nat) returns (j: nat)
    requires lo <= k <= |s| && Backtrack(t, s, lo, k).Some?
    ensures lo <= j <= k && Backtrack(t, s, lo, k) == TailAt(t, s, j)
    ensures forall j' :: j < j' <= k ==> TailAt(t, s, j').None?
    decreases k - lo
  {
    if TailAt(t, s, k).Some? {
      j := k;
    } else {
      assert k > lo && Backtrack(t, s, lo, k) == Backtrack(t, s, lo, k - 1);
      j := BacktrackLongestFirst(t, s, lo, k - 1);
    }
  }

  /** The lazy `.*?` fails only when no colon of the line is followed by a matching `\s*(Tail)`. */
  lemma {:induction false} LazyColonNone(t: Tail, s: string, g: nat)
    requires g <= |s|
    ensures LazyColon(t, s, g).None? <==> forall c :: g <= c < LineEnd(s, g) ==> !ColonHit(t, s, c)
    decreases |s| - g
  {
    if g < |s| && s[g] != '\n' && !ColonHit(t, s, g) {
      LazyColonNone(t, s, g + 1);
      assert LineEnd(s, g) == LineEnd(s, g + 1);
    }
  }

  /** The lazy `.*?` stops at the first colon `c` of the line after which `\s*(Tail)` matches. */
  lemma {:induction false} LazyColonFirst(t: Tail, s: string, g: nat) returns (c: nat)
    requires g <= |s| && LazyColon(t, s, g).Some?
    ensures g <= c < LineEnd(s, g) && ColonHit(t, s, c) && LazyColon(t, s, g) == SpacesThen(t, s, c + 1)
    ensures forall c' :: g <= c' < c ==> !ColonHit(t, s, c')
    decreases |s| - g
  {
    if ColonHit(t, s, g) {
      c := g;
    } else {
      assert g < |s| && s[g] != '\n' && LazyColon(t, s, g) == LazyColon(t, s, g + 1);
      c := LazyColonFirst(t, s, g + 1);
      assert LineEnd(s, g) == LineEnd(s, g + 1);
    }
  }

  /** The greedy `.*` finds nothing exactly when the second label, followed by a matching `\s*(Tail)`, occurs nowhere in `[q, g]`. */
  lemma {:induction false} GreedyLabelNone(second: string, t: Tail, s: string, q: nat, g: nat)
    requires q <= g <= |s|
    ensures GreedyLabel(second, t, s, q, g).None? <==> forall m :: q <= m <= g ==> !LabelHit(second, t, s, m)
    decreases g - q
  {
    if !LabelHit(second, t, s, g) && g > q {
      GreedyLabelNone(second, t, s, q, g - 1);
    }
  }

  /** The greedy `.*` backs off from the end of the line: the group follows the last occurrence `m` of the second label after which `\s*(Tail)` matches. */
  lemma {:induction false} GreedyLabelLast(second: string, t: Tail, s: string, q: nat, g: nat) returns (m: nat)
    requires q <= g <= |s| && GreedyLabel(second, t, s, q, g).Some?
    ensures q <= m <= g && LabelHit(second, t, s, m) && GreedyLabel(second, t, s, q, g) == SpacesThen(t, s, m + |second|)
    ensures forall m' :: m < m' <= g ==> !LabelHit(second, t, s, m')
    decreases g - q
  {
    if LabelHit(second, t, s, g) {
      m := g;
    } else {
      assert g > q && GreedyLabel(second, t, s, q, g) == GreedyLabel(second, t, s, q, g - 1);
      m := GreedyLabelLast(second, t, s, q, g - 1);
    }
  }

  // ---------------------------------------------------------------------------
  // Where the group comes from
  // ---------------------------------------------------------------------------

  /** `g` is what the tail captures at some position of `s`. */
  ghost predicate FromTail(t: Tail, s: string, g: string)
  {
    exists k :: 0 <= k <= |s| && TailAt(t, s, k) == Some(g)
  }

  lemma SpacesThenFromTail(t: Tail, s: string, q: nat)
    requires q <= |s| && SpacesThen(t, s, q).Some?
    ensures FromTail(t, s, SpacesThen(t, s, q).value)
  {
    var j := BacktrackLongestFirst(t, s, q, SpaceEnd(s, q));
  }

  lemma LazyColonFromTail(t: Tail, s: string, q: nat)
    requires q <= |s| && LazyColon(t, s, q).Some?
    ensures FromTail(t, s, LazyColon(t, s, q).value)
  {
    var c := LazyColonFirst(t, s, q);
    SpacesThenFromTail(t, s, c + 1);
  }

  lemma {:induction false} GreedyLabelFromTail(second: string, t: Tail, s: string, q: nat, g: nat)
    requires q <= g <= |s| && GreedyLabel(second, t, s, q, g).Some?
    ensures FromTail(t, s, GreedyLabel(second, t, s, q, g).value)
    decreases g - q
  {
    if LabelHit(second, t, s, g) {
      SpacesThenFromTail(t, s, g + |second|);
    } else {
      GreedyLabelFromTail(second, t, s, q, g - 1);
    }
  }

  /** Whatever the gap, the group of a match is what the tail captures at some position. */
  lemma MatchAtFromTail(p: Pattern, s: string, i: nat)
    requires i <= |s| && MatchAt(p, s, i).Some?
    ensures MatchesFoldAt(s, i, p.prefix)
    ensures FromTail(p.tail, s, MatchAt(p, s, i).value)
  {
    var q := i + |p.prefix|;
    match p.gap
    case NoGap => SpacesThenFromTail(p.tail, s, q);
    case LazyToColon => LazyColonFromTail(p.tail, s, q);
    case GreedyToLabel(second) => GreedyLabelFromTail(second, p.tail, s, q, LineEnd(s, q));
  }

  /** What `find` returns is the stripped capture of the tail at some position, right after an occurrence of the label. */
  lemma FindFromTail(p: Pattern, s: string)
    requires Find(p, s).Some?
    ensures exists i :: 0 <= i <= |s| && MatchesFoldAt(s, i, p.prefix)
    ensures exists g :: FromTail(p.tail, s, g) && Find(p, s) == Some(Trim(g))
  {
    FindSpec(p, s);
    var j :| 0 <= j <= |s| && MatchAt(p, s, j).Some? && Find(p, s) == Some(Trim(MatchAt(p, s, j).value))
      && forall j' :: 0 <= j' < j ==> MatchAt(p, s, j').None?;
    MatchAtFromTail(p, s, j);
  }

  /** A value is found only where the label occurs in the text, ignoring case. */
  lemma FindNeedsLabel(p: Pattern, s: string)
    requires Find(p, s).Some?
    ensures Contains(Lower(s), Lower(p.prefix))
  {
    FindFromTail(p, s);
    var i :| 0 <= i <= |s| && MatchesFoldAt(s, i, p.prefix);
    MatchesFoldAtLower(s, i, p.prefix);
  }

  // ---------------------------------------------------------------------------
  // Shape of the captured text
  // ---------------------------------------------------------------------------

  /** No character of `g` is a newline. */
  predicate SingleLine(g: string)
  {
    forall j :: 0 <= j < |g| ==> g[j] != '\n'
  }

  /** `[\d,]+\.\d{2}` as a whole. */
  predicate IsAmount(g: string)
  {
    |g| >= 4 && g[|g| - 3] == '.' && IsDigit(g[|g| - 2]) && IsDigit(g[|g| - 1])
    && forall j :: 0 <= j < |g| - 3 ==> IsAmountChar(g[j])
  }

  /** `(.+)` captures a non-empty piece of one line. */
  lemma RestShape(s: string, k: nat)
    requires k <= |s| && RestAt(s, k).Some?
    ensures RestAt(s, k).value != [] && SingleLine(RestAt(s, k).value)
  {
    LineEndScan(s, k);
  }

  /** `(.+)` captures exactly a non-empty line-free text that is followed by a newline or the end. */
  lemma RestRoundTrip(g: string, after: string)
    requires g != [] && SingleLine(g)
    requires after == [] || after[0] == '\n'
    ensures RestAt(g + after, 0) == Some(g)
  {
    var s := g + after;
    assert forall j :: 0 <= j < |g| ==> s[j] == g[j];
    assert LineEnd(s, 0) == |g| by {
      LineEndScan(s, 0);
      if |g| < |s| {
        assert s[|g|] == after[0];
      }
    }
    assert s[..|g|] == g;
  }

  /** The amount tail captures an amount. */
  lemma AmountShape(s: string, k: nat)
    requires k <= |s| && AmountAt(s, k).Some?
    ensures IsAmount(AmountAt(s, k).value)
  {
    var r := RunEnd(s, k);
    RunEndScan(s, k);
    var g := AmountAt(s, k).value;
    assert g == s[k..r + 3];
    assert forall j :: 0 <= j < |g| - 3 ==> g[j] == s[k + j];
  }

  /** An amount is captured exactly, whatever follows it: `\d{2}` takes two digits and stops. */
  lemma AmountRoundTrip(g: string, after: string)
    requires IsAmount(g)
    ensures AmountAt(g + after, 0) == Some(g)
  {
    var s := g + after;
    var n := |g| - 3;
    assert forall j :: 0 <= j < |g| ==> s[j] == g[j];
    assert RunEnd(s, 0) == n by {
      RunEndScan(s, 0);
    }
    assert s[..n + 3] == g;
  }

  /** The tails capture the shapes their sub-patterns describe. */
  lemma TailShape(t: Tail, s: string, k: nat)
    requires k <= |s| && TailAt(t, s, k).Some?
    ensures t.Amount? ==> IsAmount(TailAt(t, s, k).value)
    ensures !t.Amount? ==> TailAt(t, s, k).value != [] && SingleLine(TailAt(t, s, k).value)
  {
    match t
    case Amount => AmountShape(s, k);
    case Rest => RestShape(s, k);
    case SkipLineThenRest(skip) =>
      if MatchesFoldAt(s, k, skip) && LineEnd(s, k + |skip|) < |s| && RestAt(s, LineEnd(s, k + |skip|) + 1).Some? {
        RestShape(s, LineEnd(s, k + |skip|) + 1);
      } else {
        RestShape(s, k);
      }
  }

  /** A slice of a single-line text is single-line. */
  lemma SingleLineTrim(g: string)
    requires SingleLine(g)
    ensures SingleLine(Trim(g))
  {
    TrimIsSlice(g);
    var i :| 0 <= i <= |g| - |Trim(g)| && Trim(g) == g[i..i + |Trim(g)|] && AllSpace(g[..i]) && AllSpace(g[i + |Trim(g)|..]);
    assert forall j :: 0 <= j < |Trim(g)| ==> Trim(g)[j] == g[i + j];
  }

  /** An amount has no whitespace, so stripping leaves it as captured. */
  lemma AmountTrim(g: string)
    requires IsAmount(g)
    ensures Trim(g) == g
  {
    assert forall j :: 0 <= j < |g| ==> !IsSpace(g[j]) by {
      forall j | 0 <= j < |g| ensures !IsSpace(g[j]) {
        if j < |g| - 3 {
          assert IsAmountChar(g[j]);
        }
      }
    }
    TrimNoSpace(g);
  }

  /** A text found through `.+` lies on one line; an amount is found whole, as an amount. */
  lemma FindShape(p: Pattern, s: string)
    requires Find(p, s).Some?
    ensures p.tail.Amount? ==> IsAmount(Find(p, s).value)
    ensures !p.tail.Amount? ==> SingleLine(Find(p, s).value)
  {
    FindFromTail(p, s);
    var g :| FromTail(p.tail, s, g) && Find(p, s) == Some(Trim(g));
    var k :| 0 <= k <= |s| && TailAt(p.tail, s, k) == Some(g);
    TailShape(p.tail, s, k);
    if p.tail.Amount? {
      AmountTrim(g);
    } else {
      SingleLineTrim(g);
    }
  }

  // ---------------------------------------------------------------------------
  // Completeness
  // ---------------------------------------------------------------------------

  /** `\s*(Tail)` matches when the tail matches anywhere the `\s*` can stop. */
  lemma SpacesThenSome(t: Tail, s: string, q: nat, k: nat)
    requires q <= |s| && q <= k <= SpaceEnd(s, q) && TailAt(t, s, k).Some?
    ensures SpacesThen(t, s, q).Some?
  {
    BacktrackNone(t, s, q, SpaceEnd(s, q));
  }

  /**
   * For `Label\s*(.+)`: once the label occurs and any character other than a
   * newline follows it, `find` returns a value. `\s*` may give back a space for
   * `.+` to take, so a label followed by spaces up to the end of the line still
   * yields a value (the spaces, stripped to "").
   */
  lemma FindRestAfterLabel(p: Pattern, s: string, i: nat)
    requires p.gap.NoGap? && p.tail.Rest?
    requires MatchesFoldAt(s, i, p.prefix) && i + |p.prefix| < |s| && s[i + |p.prefix|] != '\n'
    ensures Find(p, s).Some?
  {
    var q := i + |p.prefix|;
    SpacesThenSome(p.tail, s, q, q);
    FindSomeOfMatch(p, s, i);
  }

  /** For `Label\s*([\d,]+\.\d{2})`: the label, whitespace, then an amount give a value. */
  lemma FindAmountAfterLabel(p: Pattern, s: string, i: nat, k: nat)
    requires p.gap.NoGap? && p.tail.Amount?
    requires MatchesFoldAt(s, i, p.prefix) && i + |p.prefix| <= k <= |s|
    requires forall j :: i + |p.prefix| <= j < k ==> IsSpace(s[j])
    requires AmountAt(s, k).Some?
    ensures Find(p, s).Some?
  {
    var q := i + |p.prefix|;
    assert k <= SpaceEnd(s, q);
    SpacesThenSome(p.tail, s, q, k);
    FindSomeOfMatch(p, s, i);
  }

  /** Two patterns whose labels end alike and whose rest is the same match alike after their labels. */
  lemma SuffixLabelMatch(p: Pattern, p': Pattern, s: string, i: nat, d: nat)
    requires p'.gap == p.gap && p'.tail == p.tail
    requires d + |p'.prefix| == |p.prefix| && p.prefix[d..] == p'.prefix
    requires i <= |s| && MatchesFoldAt(s, i, p.prefix)
    ensures i + d <= |s| && MatchAt(p', s, i + d) == MatchAt(p, s, i)
  {
    MatchesFoldSuffix(s, i, p.prefix, d);
  }

  /** A value found for `p` means the text, lower-cased, contains whatever the lower-cased label contains. */
  lemma FindMentions(p: Pattern, s: string, k: string, j: int)
    requires Find(p, s).Some? && OccursAt(Lower(p.prefix), k, j)
    ensures Contains(Lower(s), k)
  {
    FindNeedsLabel(p, s);
    var i :| OccursAt(Lower(s), Lower(p.prefix), i);
    OccursTransitive(Lower(s), Lower(p.prefix), k, i, j);
  }

  /** Patterns `p` and `p'` that differ only in that the label of `p'` is the label of `p` without its first `d` characters. */
  predicate LabelSuffix(p: Pattern, p': Pattern, d: nat)
  {
    p'.gap == p.gap && p'.tail == p.tail && d + |p'.prefix| == |p.prefix| && p.prefix[d..] == p'.prefix
  }

  /** Wherever `p` matches, `p'` matches `d` characters further on with the same group. */
  lemma SuffixMatchAt(p: Pattern, p': Pattern, d: nat, s: string, i: nat)
    requires LabelSuffix(p, p', d) && i <= |s|
    ensures MatchAt(p, s, i).Some? ==> i + d <= |s| && MatchAt(p', s, i + d) == MatchAt(p, s, i)
  {
    if MatchesFoldAt(s, i, p.prefix) {
      SuffixLabelMatch(p, p', s, i, d);
    }
  }

  /** A value found for `p` means a value is found for `p'`. */
  lemma SuffixFind(p: Pattern, p': Pattern, d: nat, s: string)
    requires LabelSuffix(p, p', d) && Find(p, s).Some?
    ensures Find(p', s).Some?
  {
    var j := FindAt(p, s);
    SuffixMatchAt(p, p', d, s, j);
    FindSomeOfMatch(p', s, j + d);
  }

  /** Where `p'` does not match, `p` does not match `d` characters earlier. */
  lemma SuffixNoEarlier(p: Pattern, p': Pattern, d: nat, s: string, i: nat)
    requires LabelSuffix(p, p', d) && i + d <= |s|
    requires forall j :: 0 <= j < i + d ==> MatchAt(p', s, j).None?
    ensures forall j :: 0 <= j < i ==> MatchAt(p, s, j).None?
  {
    forall j | 0 <= j < i ensures MatchAt(p, s, j).None? {
      SuffixMatchAt(p, p', d, s, j);
    }
  }

  /** When `p'` matches nowhere before the copy of a match of `p` at `i`, `find` gives the same value for both. */
  lemma SuffixFindShadow(p: Pattern, p': Pattern, d: nat, s: string, i: nat)
    requires LabelSuffix(p, p', d) && i <= |s| && MatchAt(p, s, i).Some?
    requires forall j :: 0 <= j < i + d ==> MatchAt(p', s, j).None?
    ensures Find(p', s) == Find(p, s)
  {
    SuffixMatchAt(p, p', d, s, i);
    SuffixNoEarlier(p, p', d, s, i);
    FindLeftmost(p, s, i);
    FindLeftmost(p', s, i + d);
  }
}
