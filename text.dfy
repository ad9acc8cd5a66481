/**
 * The Python `str` operations the section pipeline is built from:
 * `split`, `strip`, `join`, `lower`, `isdigit`, `isupper`, `istitle`,
 * the `in` substring test, `count`, slicing and `str(n)` of a page number.
 *
 * Case and digit classes are the ASCII ones. `strip` removes exactly the
 * characters Python's `str.isspace` accepts.
 */
module Text {

  /** Python's `str.isspace` for one character. */
  predicate IsSpace(c: char) {
    var x := c as int;
    x == 0x20 || 0x09 <= x <= 0x0D || 0x1C <= x <= 0x1F || x == 0x85 || x == 0xA0
    || x == 0x1680 || 0x2000 <= x <= 0x200A || x == 0x2028 || x == 0x2029
    || x == 0x202F || x == 0x205F || x == 0x3000
  }

  predicate IsUpperChar(c: char) { 'A' <= c <= 'Z' }

  predicate IsLowerChar(c: char) { 'a' <= c <= 'z' }

  predicate IsCased(c: char) { IsUpperChar(c) || IsLowerChar(c) }

  predicate IsDigitChar(c: char) { '0' <= c <= '9' }

  function Min(a: int, b: int): int { if a <= b then a else b }

  /** A string made only of whitespace (the empty string included). */
  predicate IsBlank(s: string) {
    forall i :: 0 <= i < |s| ==> IsSpace(s[i])
  }

  /** `s[:n]`: the first `n` characters, or all of `s` when it is shorter. */
  function Take(s: string, n: nat): (r: string)
    ensures |r| == Min(n, |s|) && r <= s
  {
    if |s| <= n then s else s[..n]
  }

  // ---------------------------------------------------------------- lower

  function LowerChar(c: char): (d: char)
  {
    if IsUpperChar(c) then (c as int + 32) as char else c
  }

  /** `s.lower()` over ASCII: every upper-case letter becomes its lower-case twin. */
  function Lower(s: string): (r: string)
    ensures |r| == |s|
    ensures forall i :: 0 <= i < |s| ==> r[i] == LowerChar(s[i])
  {
    seq(|s|, i requires 0 <= i < |s| => LowerChar(s[i]))
  }

  /** Lowering leaves no upper-case letter, changes only letters, and is idempotent. */
  lemma LowerIsLowercase(s: string)
    ensures forall i :: 0 <= i < |s| ==> !IsUpperChar(Lower(s)[i])
    ensures forall i :: 0 <= i < |s| ==> IsCased(s[i]) || Lower(s)[i] == s[i]
    ensures Lower(Lower(s)) == Lower(s)
  {
  }

  // ----------------------------------------------------------- split/join

  /** `s.split(sep)` for a one-character separator. */
  function Split(s: string, sep: char): (parts: seq<string>)
    ensures |parts| >= 1
    decreases |s|
  {
    if |s| == 0 then [""]
    else
      var rest := Split(s[1..], sep);
      if s[0] == sep then [""] + rest else [[s[0]] + rest[0]] + rest[1..]
  }

  /** The total length of the strings in `parts`. */
  ghost function TotalLength(parts: seq<string>): nat
  {
    if parts == [] then 0 else |parts[0]| + TotalLength(parts[1..])
  }

  /** `sep.join(parts)`: the parts in order, one separator between each two. */
  function Join(parts: seq<string>, sep: string): (r: string)
    ensures parts == [] ==> r == ""
    ensures |parts| == 1 ==> r == parts[0]
  {
    if |parts| == 0 then ""
    else if |parts| == 1 then parts[0]
    else parts[0] + sep + Join(parts[1..], sep)
  }

  /** A join starts with its first part and is as long as its parts together
      plus one separator between each two. */
  lemma {:induction false} JoinShape(parts: seq<string>, sep: string)
    requires parts != []
    ensures parts[0] <= Join(parts, sep)
    ensures |Join(parts, sep)| == TotalLength(parts) + (|parts| - 1) * |sep|
    decreases |parts|
  {
    if |parts| > 1 {
      JoinShape(parts[1..], sep);
      assert (|parts| - 1) * |sep| == |sep| + (|parts| - 2) * |sep|;
    }
  }

  /** No piece of a split contains the separator. */
  lemma {:induction false} SplitPartsLackSeparator(s: string, sep: char)
    ensures forall j :: 0 <= j < |Split(s, sep)| ==> sep !in Split(s, sep)[j]
    decreases |s|
  {
    if |s| > 0 {
      SplitPartsLackSeparator(s[1..], sep);
      var rest := Split(s[1..], sep);
      var parts := Split(s, sep);
      if s[0] == sep {
        assert parts == [""] + rest;
        forall j | 0 < j < |parts| ensures sep !in parts[j] {
          assert parts[j] == rest[j - 1];
        }
      } else {
        assert parts == [[s[0]] + rest[0]] + rest[1..];
        forall j | 0 <= j < |parts| ensures sep !in parts[j] {
          if j > 0 {
            assert parts[j] == rest[j];
          }
        }
      }
    }
  }

  /** Joining the pieces of a split with the separator gives the text back. */
  lemma {:induction false} JoinSplit(s: string, sep: char)
    ensures Join(Split(s, sep), [sep]) == s
    decreases |s|
  {
    if |s| > 0 {
      JoinSplit(s[1..], sep);
      var rest := Split(s[1..], sep);
      var parts := Split(s, sep);
      assert s == [s[0]] + s[1..];
      if s[0] == sep {
        assert parts == [""] + rest;
        assert parts[1..] == rest;
        assert Join(parts, [sep]) == "" + [sep] + Join(rest, [sep]);
      } else {
        assert parts == [[s[0]] + rest[0]] + rest[1..];
        if |rest| == 1 {
          assert Join(parts, [sep]) == [s[0]] + rest[0];
        } else {
          assert parts[1..] == rest[1..];
          assert Join(parts, [sep]) == ([s[0]] + rest[0]) + [sep] + Join(rest[1..], [sep]);
          assert Join(rest, [sep]) == rest[0] + [sep] + Join(rest[1..], [sep]);
        }
      }
    }
  }

  /** Splitting and joining back with the same separator gives the text back,
      and no piece of the split contains the separator. */
  lemma SplitJoin(s: string, sep: char)
    ensures Join(Split(s, sep), [sep]) == s
    ensures forall j :: 0 <= j < |Split(s, sep)| ==> sep !in Split(s, sep)[j]
  {
    JoinSplit(s, sep);
    SplitPartsLackSeparator(s, sep);
  }

  /** Every character other than the separator lands in some piece of the split. */
  lemma {:induction false} SplitCovers(s: string, sep: char, i: nat)
    requires i < |s| && s[i] != sep
    ensures exists j :: 0 <= j < |Split(s, sep)| && s[i] in Split(s, sep)[j]
    decreases |s|
  {
    var rest := Split(s[1..], sep);
    var parts := Split(s, sep);
    if i == 0 {
      assert s[0] in parts[0];
    } else {
      SplitCovers(s[1..], sep, i - 1);
      var j :| 0 <= j < |rest| && s[1..][i - 1] in rest[j];
      if s[0] == sep {
        assert parts[j + 1] == rest[j];
      } else if j == 0 {
        assert parts[0] == [s[0]] + rest[0];
      } else {
        assert parts[j] == rest[j];
      }
    }
  }

  // ---------------------------------------------------------------- strip

  function TrimStart(s: string): string
    decreases |s|
  {
    if |s| > 0 && IsSpace(s[0]) then TrimStart(s[1..]) else s
  }

  function TrimEnd(s: string): string
    decreases |s|
  {
    if |s| > 0 && IsSpace(s[|s| - 1]) then TrimEnd(s[..|s| - 1]) else s
  }

  /** `s.strip()`. */
  function Strip(s: string): string
  {
    TrimEnd(TrimStart(s))
  }

  lemma {:induction false} TrimStartSlice(s: string) returns (lo: nat)
    ensures lo <= |s| && TrimStart(s) == s[lo..] && IsBlank(s[..lo])
    ensures lo < |s| ==> !IsSpace(s[lo])
    decreases |s|
  {
    if |s| > 0 && IsSpace(s[0]) {
      var lo' := TrimStartSlice(s[1..]);
      lo := lo' + 1;
      assert s[1..][lo'..] == s[lo..];
      assert s[..lo] == [s[0]] + s[1..][..lo'];
    } else {
      lo := 0;
    }
  }

  lemma {:induction false} TrimEndSlice(s: string) returns (hi: nat)
    ensures hi <= |s| && TrimEnd(s) == s[..hi] && IsBlank(s[hi..])
    ensures 0 < hi ==> !IsSpace(s[hi - 1])
    decreases |s|
  {
    if |s| > 0 && IsSpace(s[|s| - 1]) {
      var p := s[..|s| - 1];
      hi := TrimEndSlice(p);
      assert p[..hi] == s[..hi];
      assert s[hi..] == p[hi..] + [s[|s| - 1]];
    } else {
      hi := |s|;
    }
  }

  /** `s.strip()` is the slice of `s` between a blank prefix and a blank suffix,
      and when it is not empty it starts and ends with a non-space character. */
  lemma StripSlice(s: string) returns (lo: nat, hi: nat)
    ensures lo <= hi <= |s| && Strip(s) == s[lo..hi]
    ensures IsBlank(s[..lo]) && IsBlank(s[hi..])
    ensures lo < hi ==> !IsSpace(s[lo]) && !IsSpace(s[hi - 1])
  {
    lo := TrimStartSlice(s);
    var t := s[lo..];
    var h := TrimEndSlice(t);
    hi := lo + h;
    assert t[..h] == s[lo..hi];
    assert t[h..] == s[hi..];
    if lo == |s| {
      assert hi == lo;
    }
  }

  /** `s.strip()` is empty exactly when `s` is all whitespace; otherwise stripping
      again changes nothing. */
  lemma StripBlank(s: string)
    ensures Strip(s) == "" <==> IsBlank(s)
    ensures Strip(Strip(s)) == Strip(s)
  {
    var lo, hi := StripSlice(s);
    if lo == hi {
      assert s == s[..lo] + s[hi..];
      forall i | 0 <= i < |s| ensures IsSpace(s[i]) {
        if i < lo { assert s[i] == s[..lo][i]; } else { assert s[i] == s[hi..][i - hi]; }
      }
    } else {
      assert !IsSpace(s[lo]);
      var r := Strip(s);
      assert r[0] == s[lo] && r[|r| - 1] == s[hi - 1];
    }
  }

  // --------------------------------------------------- character classes

  /** `s.isdigit()`: non-empty and made only of digits. */
  predicate IsDigits(s: string)
    ensures IsDigits(s) ==> !IsUpper(s) && Lower(s) == s
  {
    |s| > 0 && forall i :: 0 <= i < |s| ==> IsDigitChar(s[i])
  }

  /** `s.isupper()`: at least one cased character and no lower-case one. */
  predicate IsUpper(s: string)
    ensures IsUpper(s) ==> Lower(s) != s
  {
    (exists i :: 0 <= i < |s| && IsCased(s[i])) && forall i :: 0 <= i < |s| ==> !IsLowerChar(s[i])
  }

  /** The character-by-character scan `str.istitle` performs from position `i`,
      where `prevCased` says whether the previous character was cased and
      `sawCased` whether any cased character has been seen. */
  function TitleScan(s: string, i: nat, prevCased: bool, sawCased: bool): bool
    requires i <= |s|
    decreases |s| - i
  {
    if i == |s| then sawCased
    else if IsUpperChar(s[i]) then !prevCased && TitleScan(s, i + 1, true, true)
    else if IsLowerChar(s[i]) then prevCased && TitleScan(s, i + 1, true, true)
    else TitleScan(s, i + 1, false, sawCased)
  }

  /** `s.istitle()`. */
  predicate IsTitle(s: string) {
    TitleScan(s, 0, false, false)
  }

  /** The title-case rule at position `j`: an upper-case letter only after an
      uncased character (or at the start), a lower-case letter only after a cased one. */
  ghost predicate TitleRuleAt(s: string, j: int)
    requires 0 <= j < |s|
  {
    && (IsUpperChar(s[j]) ==> j == 0 || !IsCased(s[j - 1]))
    && (IsLowerChar(s[j]) ==> 0 < j && IsCased(s[j - 1]))
  }

  /** Title case stated declaratively. */
  ghost predicate TitleCased(s: string) {
    (exists j :: 0 <= j < |s| && IsCased(s[j])) && forall j :: 0 <= j < |s| ==> TitleRuleAt(s, j)
  }

  lemma {:induction false} TitleScanCorrect(s: string, i: nat, prevCased: bool, sawCased: bool)
    requires i <= |s|
    requires prevCased == (0 < i && IsCased(s[i - 1]))
    requires sawCased == (exists j :: 0 <= j < i && IsCased(s[j]))
    requires forall j :: 0 <= j < i ==> TitleRuleAt(s, j)
    ensures TitleScan(s, i, prevCased, sawCased) <==> TitleCased(s)
    decreases |s| - i
  {
    if i < |s| {
      if !TitleRuleAt(s, i) {
        assert !TitleCased(s);
      } else if IsCased(s[i]) {
        assert exists j :: 0 <= j < i + 1 && IsCased(s[j]);
        TitleScanCorrect(s, i + 1, true, true);
      } else {
        assert (exists j :: 0 <= j < i + 1 && IsCased(s[j])) == sawCased;
        TitleScanCorrect(s, i + 1, false, sawCased);
      }
    }
  }

  /** The scan `str.istitle` performs decides exactly the declarative title-case rule. */
  lemma IsTitleIffTitleCased(s: string)
    ensures IsTitle(s) <==> TitleCased(s)
  {
    TitleScanCorrect(s, 0, false, false);
  }

  // ------------------------------------------------------- substring count

  predicate OccursAt(s: string, k: string, i: nat) {
    i + |k| <= |s| && s[i..i + |k|] == k
  }

  /** `k in s`. */
  predicate Contains(s: string, k: string) {
    exists i: nat | i <= |s| :: OccursAt(s, k, i)
  }

  /** `s.count(k)`: non-overlapping occurrences found scanning from the left;
      the empty pattern is counted `len(s) + 1` times. */
  function Count(s: string, k: string): (n: nat)
    ensures |k| > 0 ==> n * |k| <= |s|
    decreases |s|
  {
    if |k| == 0 then |s| + 1
    else if |s| < |k| then 0
    else if s[..|k|] == k then
      var c := Count(s[|k|..], k);
      assert (1 + c) * |k| == |k| + c * |k|;
      1 + c
    else Count(s[1..], k)
  }

  /** `s.count(k) > 0` exactly when `k in s`. */
  lemma {:induction false} CountPositiveIffContains(s: string, k: string)
    ensures Count(s, k) > 0 <==> Contains(s, k)
    decreases |s|
  {
    if |k| == 0 {
      assert OccursAt(s, k, 0);
    } else if |s| < |k| {
    } else if s[..|k|] == k {
      assert OccursAt(s, k, 0);
    } else {
      CountPositiveIffContains(s[1..], k);
      if Contains(s[1..], k) {
        var i: nat :| i <= |s[1..]| && OccursAt(s[1..], k, i);
        assert s[1..][i..i + |k|] == s[i + 1..i + 1 + |k|];
        assert OccursAt(s, k, i + 1);
      }
      if Contains(s, k) {
        var i: nat :| i <= |s| && OccursAt(s, k, i);
        assert i != 0;
        assert s[1..][i - 1..i - 1 + |k|] == s[i..i + |k|];
        assert OccursAt(s[1..], k, i - 1);
      }
    }
  }

  /** `ps` holds positions of occurrences of `k` in `s`, in increasing order
      and with no two overlapping. */
  ghost predicate Disjoint(s: string, k: string, ps: seq<nat>)
  {
    && (forall i :: 0 <= i < |ps| ==> OccursAt(s, k, ps[i]))
    && (forall i, j :: 0 <= i < j < |ps| ==> ps[i] + |k| <= ps[j])
  }

  /** Every position of `ps` moved by `d`. */
  ghost function Shift(ps: seq<nat>, d: int): (r: seq<nat>)
    requires forall i :: 0 <= i < |ps| ==> ps[i] + d >= 0
    ensures |r| == |ps| && forall i :: 0 <= i < |ps| ==> r[i] == ps[i] + d
  {
    seq(|ps|, i requires 0 <= i < |ps| => (ps[i] + d) as nat)
  }

  /** An occurrence in a suffix is an occurrence in the whole string, `d` further on. */
  lemma OccursInSuffix(s: string, k: string, d: nat, p: nat)
    requires d <= |s|
    ensures OccursAt(s[d..], k, p) <==> OccursAt(s, k, p + d)
  {
    if p + d + |k| <= |s| {
      assert s[d..][p..p + |k|] == s[p + d..p + d + |k|];
    }
  }

  /** Occurrences in `s[d..]` are occurrences in `s`, `d` places further on. */
  lemma ShiftedDisjoint(s: string, k: string, rest: seq<nat>, d: nat)
    requires d <= |s| && Disjoint(s[d..], k, rest)
    ensures Disjoint(s, k, Shift(rest, d))
  {
    var moved := Shift(rest, d);
    forall i | 0 <= i < |moved| ensures OccursAt(s, k, moved[i]) {
      OccursInSuffix(s, k, d, rest[i]);
    }
    forall i, j | 0 <= i < j < |moved| ensures moved[i] + |k| <= moved[j] {
      assert rest[i] + |k| <= rest[j];
    }
  }

  /** An occurrence at 0 goes in front of occurrences that all start at `|k|` or later. */
  lemma PrependZero(s: string, k: string, moved: seq<nat>)
    requires OccursAt(s, k, 0) && Disjoint(s, k, moved)
    requires forall i :: 0 <= i < |moved| ==> |k| <= moved[i]
    ensures Disjoint(s, k, [0] + moved)
  {
    var ps := [0] + moved;
    forall i | 0 <= i < |ps| ensures OccursAt(s, k, ps[i]) {
      if i > 0 {
        assert ps[i] == moved[i - 1];
      }
    }
    forall i, j | 0 <= i < j < |ps| ensures ps[i] + |k| <= ps[j] {
      assert ps[j] == moved[j - 1];
      if i > 0 {
        assert ps[i] == moved[i - 1];
      }
    }
  }

  /** An occurrence at the start followed by occurrences in the rest. */
  lemma DisjointPrepend(s: string, k: string, rest: seq<nat>) returns (ps: seq<nat>)
    requires |k| <= |s| && s[..|k|] == k && Disjoint(s[|k|..], k, rest)
    ensures Disjoint(s, k, ps) && |ps| == |rest| + 1
  {
    ShiftedDisjoint(s, k, rest, |k|);
    var moved := Shift(rest, |k|);
    assert s[0..|k|] == s[..|k|];
    PrependZero(s, k, moved);
    ps := [0] + moved;
  }

  /** Occurrences in `s[1..]` are occurrences in `s`, one place further on. */
  lemma DisjointAfterFirst(s: string, k: string, rest: seq<nat>) returns (ps: seq<nat>)
    requires |s| > 0 && Disjoint(s[1..], k, rest)
    ensures Disjoint(s, k, ps) && |ps| == |rest|
  {
    ShiftedDisjoint(s, k, rest, 1);
    ps := Shift(rest, 1);
  }

  /** `Count` is achieved: there are `Count(s, k)` non-overlapping occurrences. */
  lemma {:induction false} CountAchieved(s: string, k: string) returns (ps: seq<nat>)
    requires |k| > 0
    ensures Disjoint(s, k, ps) && |ps| == Count(s, k)
    decreases |s|
  {
    if |s| < |k| {
      ps := [];
    } else if s[..|k|] == k {
      var rest := CountAchieved(s[|k|..], k);
      ps := DisjointPrepend(s, k, rest);
    } else {
      var rest := CountAchieved(s[1..], k);
      ps := DisjointAfterFirst(s, k, rest);
    }
  }

  /** Occurrences in `s` that all start at `d` or later are occurrences in
      `s[d..]`, `d` places earlier. */
  lemma UnshiftedDisjoint(s: string, k: string, ps: seq<nat>, d: nat)
    requires d <= |s| && Disjoint(s, k, ps)
    requires forall i :: 0 <= i < |ps| ==> d <= ps[i]
    ensures Disjoint(s[d..], k, Shift(ps, -(d as int)))
  {
    var rest := Shift(ps, -(d as int));
    forall i | 0 <= i < |rest| ensures OccursAt(s[d..], k, rest[i]) {
      OccursInSuffix(s, k, d, rest[i]);
    }
    forall i, j | 0 <= i < j < |rest| ensures rest[i] + |k| <= rest[j] {
      assert ps[i] + |k| <= ps[j];
    }
  }

  /** Dropping the first of non-overlapping occurrences leaves occurrences in
      the text after the first `|k|` characters. */
  lemma DisjointDropFirst(s: string, k: string, ps: seq<nat>) returns (rest: seq<nat>)
    requires |k| <= |s| && ps != [] && Disjoint(s, k, ps)
    ensures Disjoint(s[|k|..], k, rest) && |rest| == |ps| - 1
  {
    var tail := ps[1..];
    forall i | 0 <= i < |tail| ensures OccursAt(s, k, tail[i]) && |k| <= tail[i] {
      assert tail[i] == ps[i + 1] && ps[0] + |k| <= ps[i + 1];
    }
    forall i, j | 0 <= i < j < |tail| ensures tail[i] + |k| <= tail[j] {
      assert ps[i + 1] + |k| <= ps[j + 1];
    }
    UnshiftedDisjoint(s, k, tail, |k|);
    rest := Shift(tail, -|k|);
  }

  /** Occurrences none of which starts at 0 are occurrences in `s[1..]`. */
  lemma DisjointNotAtStart(s: string, k: string, ps: seq<nat>) returns (rest: seq<nat>)
    requires |s| > 0 && !OccursAt(s, k, 0) && Disjoint(s, k, ps)
    ensures Disjoint(s[1..], k, rest) && |rest| == |ps|
  {
    assert forall i :: 0 <= i < |ps| ==> ps[i] != 0;
    UnshiftedDisjoint(s, k, ps, 1);
    rest := Shift(ps, -1);
  }

  /** `Count` is maximal: no set of non-overlapping occurrences is larger, so
      `Count(s, k)` is exactly the largest number of them. */
  lemma {:induction false} CountMaximal(s: string, k: string, ps: seq<nat>)
    requires |k| > 0 && Disjoint(s, k, ps)
    ensures |ps| <= Count(s, k)
    decreases |s|
  {
    if ps != [] {
      assert OccursAt(s, k, ps[0]);
      if s[..|k|] == k {
        var rest := DisjointDropFirst(s, k, ps);
        CountMaximal(s[|k|..], k, rest);
      } else {
        assert s[0..|k|] == s[..|k|];
        var rest := DisjointNotAtStart(s, k, ps);
        CountMaximal(s[1..], k, rest);
      }
    }
  }

  /** Two occurrences that do not overlap are both counted; overlapping
      ones are counted once. */
  lemma CountExamples()
    ensures Count("trip trip", "trip") == 2
    ensures Count("aaa", "aa") == 1
  {
    assert "trip trip"[..4] == "trip" && "trip trip"[4..] == " trip";
    assert " trip"[..4][0] == ' ';
    assert " trip"[1..] == "trip";
    assert "trip"[..4] == "trip" && "trip"[4..] == "";
    assert "aaa"[..2] == "aa" && "aaa"[2..] == "a";
  }

  /** A non-empty pattern longer than the text, or whose first character the
      text lacks, does not occur in it. */
  lemma NotContainedWithoutFirstChar(s: string, k: string)
    requires |k| > 0 && (|k| > |s| || k[0] !in s)
    ensures !Contains(s, k)
  {
    if |k| <= |s| {
      forall i: nat | i <= |s| ensures !OccursAt(s, k, i) {
        if i + |k| <= |s| {
          assert s[i..i + |k|][0] == s[i];
        }
      }
    }
  }

  // ------------------------------------------------------- decimal numerals

  function DigitChar(d: nat): char
    requires d < 10
  {
    ('0' as int + d) as char
  }

  /** `str(n)` for a natural number. */
  function Decimal(n: nat): (r: string)
    ensures IsDigits(r)
    ensures n == 0 ==> r == "0"
    ensures n > 0 ==> r[0] != '0'
    decreases n
  {
    if n < 10 then [DigitChar(n)] else Decimal(n / 10) + [DigitChar(n % 10)]
  }

  /** The value of a string of decimal digits, as `int(s)` reads it. */
  function DigitsValue(s: string): nat
    requires forall i :: 0 <= i < |s| ==> IsDigitChar(s[i])
  {
    if s == [] then 0
    else
      assert IsDigitChar(s[|s| - 1]);
      DigitsValue(s[..|s| - 1]) * 10 + (s[|s| - 1] as int - '0' as int)
  }

  /** The page number written into a section title reads back as that number. */
  lemma {:induction false} DecimalRoundTrip(n: nat)
    ensures DigitsValue(Decimal(n)) == n
    decreases n
  {
    if n >= 10 {
      DecimalRoundTrip(n / 10);
      var r := Decimal(n);
      assert r[..|r| - 1] == Decimal(n / 10);
    }
  }
}
