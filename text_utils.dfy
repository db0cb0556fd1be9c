/**
 * The general text and arithmetic helpers of src/lib/utils.ts:
 * percentage rounding, truncation with an ellipsis, the e-mail shape test,
 * slug generation and the `hsl(` → `hsla(` opacity rewrite.
 */
module TextUtils {
  import opened Wrappers
  import opened Strings
  import opened Seqs

  // ---------------------------------------------------------------------
  // calculatePercentage
  // ---------------------------------------------------------------------

  /**
   * `Math.round(value / total * 100)`, or 0 when `total` is 0.
   * `Math.round` rounds halves towards +∞, so the result r is the integer with
   * r - 1/2 <= 100·value/total < r + 1/2; the two ensures clauses below state
   * exactly that inequality, multiplied out by 2·|total|.
   */
  function CalculatePercentage(value: int, total: int): (r: int)
    ensures total == 0 ==> r == 0
    ensures total > 0 ==> 2 * total * r <= 200 * value + total < 2 * total * r + 2 * total
    ensures total < 0 ==> -2 * total * r <= -200 * value - total < -2 * total * r - 2 * total
  {
    if total == 0 then 0
    else if total > 0 then RoundHalfUp(200 * value + total, 2 * total)
    else RoundHalfUp(-200 * value - total, -2 * total)
  }

  /** Floor division by a positive divisor, with the defining inequality. */
  function RoundHalfUp(n: int, d: int): (q: int)
    requires d > 0
    ensures d * q <= n < d * q + d
  {
    n / d
  }

  /** The rounded share of a part within its whole lies in 0..100. */
  lemma PercentageInRange(value: int, total: int)
    requires 0 <= value <= total
    ensures 0 <= CalculatePercentage(value, total) <= 100
  {
    var r := CalculatePercentage(value, total);
    if total > 0 {
      var d := 2 * total;
      assert d * r <= 200 * value + total < d * (r + 1);
      MulCancel(d, -1, r + 1);
      MulCancel(d, r, 101);
    }
  }

  /** For a fixed positive total, more votes never give a smaller percentage. */
  lemma PercentageMonotone(v1: int, v2: int, total: int)
    requires total > 0 && v1 <= v2
    ensures CalculatePercentage(v1, total) <= CalculatePercentage(v2, total)
  {
    var r1, r2 := CalculatePercentage(v1, total), CalculatePercentage(v2, total);
    var d := 2 * total;
    assert d * r1 <= 200 * v1 + total <= 200 * v2 + total < d * (r2 + 1);
    MulCancel(d, r1, r2 + 1);
  }

  /** Cancelling a positive factor from a strict inequality. */
  lemma MulCancel(d: int, a: int, b: int)
    requires d > 0 && d * a < d * b
    ensures a < b
  {
  }

  /** The worked example: 45 of 130 is 34.6…%, shown as 35; 0 of 0 is 0. */
  lemma PercentageExamples()
    ensures CalculatePercentage(45, 130) == 35
    ensures CalculatePercentage(0, 0) == 0
  {
    assert RoundHalfUp(200 * 45 + 130, 260) == 35;
  }

  // ---------------------------------------------------------------------
  // truncateText
  // ---------------------------------------------------------------------

  /** The end index `String.prototype.slice(0, end)` uses on a string of length `len`. */
  function SliceEnd(len: nat, end: int): (k: nat)
    ensures k <= len
    ensures 0 <= end <= len ==> k == end
    ensures end < 0 ==> k == if len + end < 0 then 0 else len + end
    ensures end > len ==> k == len
  {
    if end < 0 then (if len + end < 0 then 0 else len + end)
    else if end > len then len
    else end
  }

  /** `text` when it fits in `maxLength`, else `text.slice(0, maxLength) + '...'`. */
  function TruncateText(text: string, maxLength: int): (r: string)
    ensures |text| <= maxLength ==> r == text
    ensures |text| > maxLength && maxLength >= 0 ==>
      |r| == maxLength + 3 && r[..maxLength] == text[..maxLength] && r[maxLength..] == "..."
    ensures maxLength < 0 ==>
      r == text[..if |text| + maxLength < 0 then 0 else |text| + maxLength] + "..."
  {
    if |text| <= maxLength then text
    else text[..SliceEnd(|text|, maxLength)] + "..."
  }

  /** A non-negative limit bounds the length by limit + 3, and the result starts with a prefix of the text. */
  lemma TruncateBounds(text: string, maxLength: int)
    requires maxLength >= 0
    ensures |TruncateText(text, maxLength)| <= maxLength + 3
    ensures var r := TruncateText(text, maxLength);
      r == text || (r == text[..maxLength] + "..." && |text| > maxLength)
  {
  }

  /** Truncating an already truncated text with the same non-negative limit changes nothing. */
  lemma TruncateIdempotent(text: string, maxLength: int)
    requires maxLength >= 0
    ensures TruncateText(TruncateText(text, maxLength), maxLength) == TruncateText(text, maxLength)
  {
    var r := TruncateText(text, maxLength);
    if |text| > maxLength {
      assert r[..maxLength] == text[..maxLength];
    }
  }

  // ---------------------------------------------------------------------
  // validateEmail: /^[^\s@]+@[^\s@]+\.[^\s@]+$/
  // ---------------------------------------------------------------------

  /** The characters the JavaScript regular-expression class `\s` matches. */
  predicate IsJsWhitespace(c: char) {
    var n := c as int;
    n == 0x09 || n == 0x0A || n == 0x0B || n == 0x0C || n == 0x0D || n == 0x20
    || n == 0xA0 || n == 0x1680 || (0x2000 <= n <= 0x200A) || n == 0x2028
    || n == 0x2029 || n == 0x202F || n == 0x205F || n == 0x3000 || n == 0xFEFF
  }

  /** A non-empty run of `[^\s@]`. */
  predicate EmailPart(x: string) {
    |x| > 0 && forall k :: 0 <= k < |x| ==> x[k] != '@' && !IsJsWhitespace(x[k])
  }

  /** The regular expression matches `s` with its `@` at `i` and its literal `.` at `j`. */
  predicate PatternSplit(s: string, i: int, j: int) {
    0 < i && i + 1 < j < |s| - 1 && s[i] == '@' && s[j] == '.'
    && EmailPart(s[..i]) && EmailPart(s[i + 1..j]) && EmailPart(s[j + 1..])
  }

  /** `validateEmail`: the anchored regular expression above matches the whole string. */
  predicate ValidateEmail(email: string) {
    exists i, j | 0 < i < |email| && i + 1 < j < |email| - 1 :: PatternSplit(email, i, j)
  }

  /**
   * The shape the regular expression accepts, stated directly: no whitespace,
   * exactly one `@`, something before it, and a `.` after it with at least one
   * character on each side.
   */
  ghost predicate AtSplit(s: string, i: int) {
    0 < i < |s| && s[i] == '@'
    && (forall k :: 0 <= k < |s| && k != i ==> s[k] != '@')
    && exists j :: i + 1 < j < |s| - 1 && s[j] == '.'
  }

  ghost predicate EmailShape(s: string) {
    (forall k :: 0 <= k < |s| ==> !IsJsWhitespace(s[k]))
    && exists i :: AtSplit(s, i)
  }

  lemma ValidateEmailIffShape(s: string)
    ensures ValidateEmail(s) <==> EmailShape(s)
  {
    if ValidateEmail(s) {
      var i, j :| 0 < i < |s| && i + 1 < j < |s| - 1 && PatternSplit(s, i, j);
      forall k | 0 <= k < |s| ensures !IsJsWhitespace(s[k]) && (k != i ==> s[k] != '@') {
        if k < i { assert s[..i][k] == s[k]; }
        else if i < k < j { assert s[i + 1..j][k - i - 1] == s[k]; }
        else if j < k { assert s[j + 1..][k - j - 1] == s[k]; }
      }
      assert AtSplit(s, i);
    }
    if EmailShape(s) {
      var i :| AtSplit(s, i);
      var j :| i + 1 < j < |s| - 1 && s[j] == '.';
      assert s[i + 1..j][0] == s[i + 1];
      assert PatternSplit(s, i, j);
    }
  }

  lemma EmailExamples()
    ensures ValidateEmail("a@b.c")
    ensures !ValidateEmail("a@b")
    ensures !ValidateEmail("a b@c.d")
  {
    assert PatternSplit("a@b.c", 1, 3);
    ValidateEmailIffShape("a@b");
    ValidateEmailIffShape("a b@c.d");
    assert IsJsWhitespace("a b@c.d"[1]);
  }

  // ---------------------------------------------------------------------
  // generateSlug
  // ---------------------------------------------------------------------

  /** `\w`: ASCII letters, digits and underscore. */
  predicate IsWordChar(c: char) { IsAsciiLetter(c) || IsDigit(c) || c == '_' }

  /** `[\s_-]`, the characters a run of which becomes one hyphen. */
  predicate IsSeparator(c: char) { IsJsWhitespace(c) || c == '_' || c == '-' }

  /** The unreserved characters a slug may use: `[a-z0-9-]`. */
  predicate IsSlugChar(c: char) { IsAsciiLower(c) || IsDigit(c) || c == '-' }

  /** The characters `[^\w\s-]` does not match, which the strip keeps. */
  predicate IsStripKept(c: char) { IsWordChar(c) || IsJsWhitespace(c) || c == '-' }

  predicate IsNotSeparator(c: char) { !IsSeparator(c) }

  predicate IsNotHyphen(c: char) { c != '-' }

  /** ASCII letters and digits: the word characters that are not separators. */
  predicate IsAsciiAlnum(c: char) { IsAsciiLetter(c) || IsDigit(c) }

  /** `s` has `--` at `i`. */
  predicate DoubleHyphenAt(s: string, i: int) {
    0 <= i < |s| - 1 && s[i] == '-' && s[i + 1] == '-'
  }

  predicate NoDoubleHyphen(s: string) {
    forall i :: 0 <= i < |s| - 1 ==> !DoubleHyphenAt(s, i)
  }

  /** A well-formed slug: slug characters only, no `--`, no hyphen at either end. */
  predicate IsSlug(s: string) {
    (forall i :: 0 <= i < |s| ==> IsSlugChar(s[i]))
    && NoDoubleHyphen(s)
    && (|s| > 0 ==> s[0] != '-' && s[|s| - 1] != '-')
  }

  /** `.replace(/[^\w\s-]/g, '')`. */
  function StripDisallowed(s: string): (r: string)
    ensures |r| <= |s|
    ensures forall i :: 0 <= i < |r| ==> IsWordChar(r[i]) || IsJsWhitespace(r[i]) || r[i] == '-'
    ensures (forall i :: 0 <= i < |s| ==> !IsAsciiUpper(s[i])) ==>
      forall i :: 0 <= i < |r| ==> !IsAsciiUpper(r[i])
    ensures (forall i :: 0 <= i < |s| ==> IsWordChar(s[i]) || IsJsWhitespace(s[i]) || s[i] == '-') ==> r == s
    ensures r == Select(s, IsStripKept)
  {
    if s == [] then []
    else
      var rest := StripDisallowed(s[1..]);
      if IsWordChar(s[0]) || IsJsWhitespace(s[0]) || s[0] == '-' then [s[0]] + rest else rest
  }

  /** The string without its leading separators. */
  function DropSeparators(s: string): (r: string)
    ensures |r| <= |s| && r == s[|s| - |r|..]
    ensures r != [] ==> !IsSeparator(r[0])
    ensures s != [] && IsSeparator(s[0]) ==> |r| < |s|
  {
    if s != [] && IsSeparator(s[0]) then DropSeparators(s[1..]) else s
  }

  /** Dropping leading separators loses no other character. */
  lemma {:induction false} DropKeepsOthers(s: string)
    decreases |s|
    ensures Select(DropSeparators(s), IsNotSeparator) == Select(s, IsNotSeparator)
  {
    if s != [] && IsSeparator(s[0]) {
      assert s == [s[0]] + s[1..];
      SelectCons(s[0], s[1..], IsNotSeparator);
      DropKeepsOthers(s[1..]);
    }
  }

  /** `.replace(/[\s_-]+/g, '-')`: each maximal run of separators becomes one hyphen. */
  function CollapseSeparators(s: string): (r: string)
    decreases |s|
    ensures NoDoubleHyphen(r)
    ensures (s == []) == (r == [])
    ensures s != [] && !IsSeparator(s[0]) ==> r[0] == s[0]
    ensures (forall i :: 0 <= i < |s| ==> IsAsciiLower(s[i]) || IsDigit(s[i]) || IsSeparator(s[i])) ==>
      forall i :: 0 <= i < |r| ==> IsSlugChar(r[i])
  {
    if s == [] then []
    else if IsSeparator(s[0]) then
      var tail := DropSeparators(s);
      ConsKeepsNoDoubleHyphen('-', CollapseSeparators(tail));
      "-" + CollapseSeparators(tail)
    else
      ConsKeepsNoDoubleHyphen(s[0], CollapseSeparators(s[1..]));
      [s[0]] + CollapseSeparators(s[1..])
  }

  /** The collapse only rewrites separators: every other character survives, in order. */
  lemma {:induction false} CollapseKeepsOthers(s: string)
    decreases |s|
    ensures Select(CollapseSeparators(s), IsNotHyphen) == Select(s, IsNotSeparator)
  {
    if s != [] {
      assert s == [s[0]] + s[1..];
      SelectCons(s[0], s[1..], IsNotSeparator);
      if IsSeparator(s[0]) {
        var tail := DropSeparators(s);
        DropKeepsOthers(s);
        CollapseKeepsOthers(tail);
        SelectCons('-', CollapseSeparators(tail), IsNotHyphen);
      } else {
        CollapseKeepsOthers(s[1..]);
        SelectCons(s[0], CollapseSeparators(s[1..]), IsNotHyphen);
      }
    }
  }

  /** A run of separators in front of a non-separator is dropped entirely. */
  lemma {:induction false} DropRun(sep: string, y: string)
    requires forall i :: 0 <= i < |sep| ==> IsSeparator(sep[i])
    requires y == [] || !IsSeparator(y[0])
    ensures DropSeparators(sep + y) == y
    decreases |sep|
  {
    if sep == [] {
      assert sep + y == y;
    } else {
      assert (sep + y)[0] == sep[0];
      assert (sep + y)[1..] == sep[1..] + y;
      DropRun(sep[1..], y);
    }
  }

  /** Dropping separators stops inside a string that ends in a non-separator. */
  lemma {:induction false} DropStopsInside(x: string, rest: string)
    requires x != [] && !IsSeparator(x[|x| - 1])
    ensures DropSeparators(x + rest) == DropSeparators(x) + rest
    ensures DropSeparators(x) != [] && DropSeparators(x)[|DropSeparators(x)| - 1] == x[|x| - 1]
    decreases |x|
  {
    assert (x + rest)[0] == x[0];
    if IsSeparator(x[0]) {
      assert (x + rest)[1..] == x[1..] + rest;
      DropStopsInside(x[1..], rest);
    }
  }

  /** The collapse on a string starting with a separator: one hyphen, then the rest after the run. */
  lemma CollapseAtSeparator(s: string)
    requires s != [] && IsSeparator(s[0])
    ensures CollapseSeparators(s) == "-" + CollapseSeparators(DropSeparators(s))
  {
  }

  /** The collapse on a string starting with another character: that character, then the rest. */
  lemma CollapseAtOther(s: string)
    requires s != [] && !IsSeparator(s[0])
    ensures CollapseSeparators(s) == [s[0]] + CollapseSeparators(s[1..])
  {
  }

  lemma ConcatAssoc(a: string, b: string, c: string)
    ensures a + b + c == a + (b + c)
  {
  }

  lemma EmptyConcat(a: string)
    ensures [] + a == a
  {
  }

  lemma ConcatHead(a: string, b: string)
    requires a != []
    ensures (a + b)[0] == a[0]
  {
  }

  lemma ConcatTail(a: string, b: string, c: string)
    requires a != []
    ensures (a + b + c)[0] == a[0]
    ensures (a + b + c)[1..] == a[1..] + b + c
  {
  }

  /**
   * Each maximal run of separators becomes exactly one hyphen, in place: a run
   * between a part ending in a non-separator and one starting with a
   * non-separator is replaced by `-` and the two parts collapse on their own.
   */
  lemma {:induction false} CollapseSplit(x: string, sep: string, y: string)
    requires sep != [] && forall i :: 0 <= i < |sep| ==> IsSeparator(sep[i])
    requires x == [] || !IsSeparator(x[|x| - 1])
    requires y == [] || !IsSeparator(y[0])
    ensures CollapseSeparators(x + sep + y) == CollapseSeparators(x) + "-" + CollapseSeparators(y)
    decreases |x|
  {
    var s := x + sep + y;
    var cy := CollapseSeparators(y);
    if x == [] {
      EmptyConcat(sep);
      ConcatHead(sep, y);
      CollapseAtSeparator(s);
      DropRun(sep, y);
      EmptyConcat("-");
    } else if IsSeparator(x[0]) {
      var d := DropSeparators(x);
      ConcatAssoc(x, sep, y);
      ConcatTail(x, sep, y);
      CollapseAtSeparator(s);
      CollapseAtSeparator(x);
      DropStopsInside(x, sep + y);
      ConcatAssoc(d, sep, y);
      CollapseSplit(d, sep, y);
      ConcatAssoc("-", CollapseSeparators(d) + "-", cy);
      ConcatAssoc("-", CollapseSeparators(d), "-");
    } else {
      var cx := CollapseSeparators(x[1..]);
      ConcatTail(x, sep, y);
      CollapseAtOther(s);
      CollapseAtOther(x);
      CollapseSplit(x[1..], sep, y);
      ConcatAssoc([x[0]], cx + "-", cy);
      ConcatAssoc([x[0]], cx, "-");
    }
  }

  lemma ConsKeepsNoDoubleHyphen(c: char, t: string)
    requires NoDoubleHyphen(t)
    requires c == '-' && t != [] ==> t[0] != '-'
    ensures NoDoubleHyphen([c] + t)
  {
    var r := [c] + t;
    forall i | 0 <= i < |r| - 1 ensures !DoubleHyphenAt(r, i) {
      if i > 0 {
        assert r[i] == t[i - 1] && r[i + 1] == t[i];
        assert !DoubleHyphenAt(t, i - 1);
      }
    }
  }

  /** `^-+`: the leading hyphens removed. */
  function TrimLeadingHyphens(s: string): (r: string)
    ensures |r| <= |s| && r == s[|s| - |r|..]
    ensures r != [] ==> r[0] != '-'
  {
    if s != [] && s[0] == '-' then TrimLeadingHyphens(s[1..]) else s
  }

  /** `-+$`: the trailing hyphens removed. */
  function TrimTrailingHyphens(s: string): (r: string)
    ensures |r| <= |s| && r == s[..|r|]
    ensures r != [] ==> r[|r| - 1] != '-'
  {
    if s != [] && s[|s| - 1] == '-' then TrimTrailingHyphens(s[..|s| - 1]) else s
  }

  /** Trimming leading hyphens removes nothing else. */
  lemma {:induction false} TrimLeadingKeepsOthers(s: string)
    decreases |s|
    ensures Select(TrimLeadingHyphens(s), IsNotHyphen) == Select(s, IsNotHyphen)
  {
    if s != [] && s[0] == '-' {
      assert s == [s[0]] + s[1..];
      SelectCons(s[0], s[1..], IsNotHyphen);
      TrimLeadingKeepsOthers(s[1..]);
    }
  }

  /** Trimming trailing hyphens removes nothing else. */
  lemma {:induction false} TrimTrailingKeepsOthers(s: string)
    decreases |s|
    ensures Select(TrimTrailingHyphens(s), IsNotHyphen) == Select(s, IsNotHyphen)
  {
    if s != [] && s[|s| - 1] == '-' {
      assert s == s[..|s| - 1] + [s[|s| - 1]];
      SelectAppend(s[..|s| - 1], [s[|s| - 1]], IsNotHyphen);
      TrimTrailingKeepsOthers(s[..|s| - 1]);
    }
  }

  /** `generateSlug`: lower-case, strip, collapse separators, trim hyphens. */
  function GenerateSlug(text: string): (r: string)
    ensures IsSlug(r)
    ensures Select(r, IsNotHyphen) == Select(Lower(text), IsAsciiAlnum)
  {
    var lowered := Lower(text);
    var stripped := StripDisallowed(lowered);
    var collapsed := CollapseSeparators(stripped);
    var r := TrimTrailingHyphens(TrimLeadingHyphens(collapsed));
    CollapsedHasSlugChars(stripped);
    TrimmedIsSlug(collapsed, r);
    SlugKeepsAlnum(lowered, collapsed, r);
    r
  }

  /** A character survives both the strip and the collapse exactly when it is an ASCII letter or digit. */
  lemma AlnumIsKeptNonSeparator(c: char)
    ensures IsAsciiAlnum(c) == (IsStripKept(c) && IsNotSeparator(c))
  {
    if IsAsciiAlnum(c) {
      assert !IsJsWhitespace(c);
    }
  }

  /** The letters and digits of the lower-cased text are exactly the non-hyphens of the slug. */
  lemma SlugKeepsAlnum(lowered: string, collapsed: string, r: string)
    requires collapsed == CollapseSeparators(StripDisallowed(lowered))
    requires r == TrimTrailingHyphens(TrimLeadingHyphens(collapsed))
    ensures Select(r, IsNotHyphen) == Select(lowered, IsAsciiAlnum)
  {
    var stripped := StripDisallowed(lowered);
    var lead := TrimLeadingHyphens(collapsed);
    TrimTrailingKeepsOthers(lead);
    TrimLeadingKeepsOthers(collapsed);
    CollapseKeepsOthers(stripped);
    forall c ensures IsAsciiAlnum(c) == (IsStripKept(c) && IsNotSeparator(c)) {
      AlnumIsKeptNonSeparator(c);
    }
    SelectSelect(lowered, IsStripKept, IsNotSeparator, IsAsciiAlnum);
  }

  /** What survives the strip and the lower-casing collapses to slug characters. */
  lemma CollapsedHasSlugChars(stripped: string)
    requires forall i :: 0 <= i < |stripped| ==> IsWordChar(stripped[i]) || IsJsWhitespace(stripped[i]) || stripped[i] == '-'
    requires forall i :: 0 <= i < |stripped| ==> !IsAsciiUpper(stripped[i])
    ensures forall i :: 0 <= i < |CollapseSeparators(stripped)| ==> IsSlugChar(CollapseSeparators(stripped)[i])
  {
    assert forall i :: 0 <= i < |stripped| ==> IsAsciiLower(stripped[i]) || IsDigit(stripped[i]) || IsSeparator(stripped[i]);
  }

  /** Trimming the hyphens at both ends of a collapsed string leaves a slug. */
  lemma TrimmedIsSlug(collapsed: string, r: string)
    requires forall i :: 0 <= i < |collapsed| ==> IsSlugChar(collapsed[i])
    requires NoDoubleHyphen(collapsed)
    requires r == TrimTrailingHyphens(TrimLeadingHyphens(collapsed))
    ensures IsSlug(r)
  {
    var lead := TrimLeadingHyphens(collapsed);
    SuffixPointwise(collapsed, lead);
    PrefixPointwise(lead, r);
    PieceIsSlug(collapsed, lead, r);
  }

  /**
   * `r`, a prefix of the suffix `lead` of `s`, with no hyphen at either end,
   * is a slug when `s` is made of slug characters without `--`.
   */
  lemma PieceIsSlug(s: string, lead: string, r: string)
    requires forall i :: 0 <= i < |s| ==> IsSlugChar(s[i])
    requires NoDoubleHyphen(s)
    requires |lead| <= |s| && forall i :: 0 <= i < |lead| ==> lead[i] == s[|s| - |lead| + i]
    requires |r| <= |lead| && forall i :: 0 <= i < |r| ==> r[i] == lead[i]
    requires lead != [] ==> lead[0] != '-'
    requires r != [] ==> r[|r| - 1] != '-'
    ensures IsSlug(r)
  {
    var lo := |s| - |lead|;
    PieceKeepsSlugShape(s, r, lo);
  }

  lemma SuffixPointwise(s: string, t: string)
    requires |t| <= |s| && t == s[|s| - |t|..]
    ensures forall i :: 0 <= i < |t| ==> t[i] == s[|s| - |t| + i]
  {
  }

  lemma PrefixPointwise(s: string, t: string)
    requires |t| <= |s| && t == s[..|t|]
    ensures forall i :: 0 <= i < |t| ==> t[i] == s[i]
  {
  }

  /** A piece of a string of slug characters without `--` is again one. */
  lemma PieceKeepsSlugShape(s: string, piece: string, lo: nat)
    requires lo + |piece| <= |s|
    requires forall i :: 0 <= i < |piece| ==> piece[i] == s[lo + i]
    requires forall i :: 0 <= i < |s| ==> IsSlugChar(s[i])
    requires NoDoubleHyphen(s)
    ensures forall i :: 0 <= i < |piece| ==> IsSlugChar(piece[i])
    ensures NoDoubleHyphen(piece)
  {
    forall i | 0 <= i < |piece| - 1 ensures !DoubleHyphenAt(piece, i) {
      assert piece[i] == s[lo + i] && piece[i + 1] == s[lo + i + 1];
      assert !DoubleHyphenAt(s, lo + i);
    }
  }

  /** A string already in slug form is left alone by every step of the pipeline. */
  lemma {:induction false} CollapseFixesSlugChars(y: string)
    requires forall i :: 0 <= i < |y| ==> IsSlugChar(y[i])
    requires NoDoubleHyphen(y)
    ensures CollapseSeparators(y) == y
  {
    if y != [] {
      var t := y[1..];
      assert forall i :: 0 <= i < |t| ==> t[i] == y[i + 1];
      forall i | 0 <= i < |t| - 1 ensures !DoubleHyphenAt(t, i) {
        assert !DoubleHyphenAt(y, i + 1);
      }
      assert |y| > 1 ==> !DoubleHyphenAt(y, 0);
      CollapseFixesSlugChars(t);
      CollapseSlugStep(y);
      assert y == [y[0]] + t;
    }
  }

  /** One step of the collapse on a slug-shaped string: its first character is kept as it is. */
  lemma CollapseSlugStep(y: string)
    requires y != [] && IsSlugChar(y[0])
    requires |y| > 1 ==> IsSlugChar(y[1]) && !(y[0] == '-' && y[1] == '-')
    ensures CollapseSeparators(y) == [y[0]] + CollapseSeparators(y[1..])
  {
    var t := y[1..];
    if y[0] == '-' {
      if t != [] {
        assert t[0] == y[1];
        assert !IsSeparator(t[0]);
      }
      assert DropSeparators(y) == DropSeparators(t) == t;
      CollapseAtSeparator(y);
    } else {
      assert !IsSeparator(y[0]);
      CollapseAtOther(y);
    }
  }

  /** Lower-case letters and digits only. */
  predicate IsLowerWord(w: string) {
    w != [] && forall i :: 0 <= i < |w| ==> IsAsciiLower(w[i]) || IsDigit(w[i])
  }

  /** Two lower-case words separated by a space become the words joined by a hyphen. */
  lemma TwoWordsSlug(w1: string, w2: string)
    requires IsLowerWord(w1) && IsLowerWord(w2)
    ensures GenerateSlug(w1 + " " + w2) == w1 + "-" + w2
  {
    var t := w1 + " " + w2;
    var c := w1 + "-" + w2;
    TwoWordsCollapse(w1, w2);
    assert c[0] == w1[0] && c[|c| - 1] == w2[|w2| - 1];
    assert TrimLeadingHyphens(c) == c;
    assert TrimTrailingHyphens(c) == c;
  }

  /** The first three steps of the pipeline on two lower-case words separated by a space. */
  lemma TwoWordsCollapse(w1: string, w2: string)
    requires IsLowerWord(w1) && IsLowerWord(w2)
    ensures CollapseSeparators(StripDisallowed(Lower(w1 + " " + w2))) == w1 + "-" + w2
  {
    TwoWordsAreLowerText(w1, w2);
    LowerTextUnchanged(w1 + " " + w2);
    CollapseJoinsWords(w1, w2);
  }

  /** The collapse turns the space between two words into a hyphen and leaves the words alone. */
  lemma CollapseJoinsWords(w1: string, w2: string)
    requires IsLowerWord(w1) && IsLowerWord(w2)
    ensures CollapseSeparators(w1 + " " + w2) == w1 + "-" + w2
  {
    WordEndsAreNotSeparators(w1);
    WordEndsAreNotSeparators(w2);
    SpaceIsSeparatorRun();
    CollapseSplit(w1, " ", w2);
    WordIsCollapseFixed(w1);
    WordIsCollapseFixed(w2);
  }

  lemma WordEndsAreNotSeparators(w: string)
    requires IsLowerWord(w)
    ensures !IsSeparator(w[0]) && !IsSeparator(w[|w| - 1])
  {
    assert IsAsciiLower(w[0]) || IsDigit(w[0]);
    assert IsAsciiLower(w[|w| - 1]) || IsDigit(w[|w| - 1]);
  }

  lemma SpaceIsSeparatorRun()
    ensures " " != [] && forall i :: 0 <= i < |" "| ==> IsSeparator(" "[i])
  {
    assert IsSeparator(' ');
  }

  /** Lower-case letters, digits and spaces only. */
  predicate IsLowerText(t: string) {
    forall i :: 0 <= i < |t| ==> IsAsciiLower(t[i]) || IsDigit(t[i]) || t[i] == ' '
  }

  lemma TwoWordsAreLowerText(w1: string, w2: string)
    requires IsLowerWord(w1) && IsLowerWord(w2)
    ensures IsLowerText(w1 + " " + w2)
  {
    var t := w1 + " " + w2;
    forall i | 0 <= i < |t| ensures IsAsciiLower(t[i]) || IsDigit(t[i]) || t[i] == ' ' {
      if i < |w1| {
        assert t[i] == w1[i];
      } else if i > |w1| {
        assert t[i] == w2[i - |w1| - 1];
      }
    }
  }

  /** Lower-casing and stripping leave such a text as it is. */
  lemma LowerTextUnchanged(t: string)
    requires IsLowerText(t)
    ensures Lower(t) == t
    ensures StripDisallowed(t) == t
  {
    assert forall i :: 0 <= i < |t| ==> Lower(t)[i] == t[i];
    assert forall i :: 0 <= i < |t| ==> IsWordChar(t[i]) || IsJsWhitespace(t[i]) || t[i] == '-';
  }

  lemma WordIsCollapseFixed(w: string)
    requires IsLowerWord(w)
    ensures CollapseSeparators(w) == w
  {
    assert forall i :: 0 <= i < |w| ==> w[i] != '-';
    CollapseFixesSlugChars(w);
  }

  lemma SlugIsFixedPoint(y: string)
    requires IsSlug(y)
    ensures GenerateSlug(y) == y
  {
    assert Lower(y) == y;
    assert StripDisallowed(y) == y;
    CollapseFixesSlugChars(y);
  }

  /** `generateSlug` is idempotent, and its fixed points are exactly the slugs. */
  lemma GenerateSlugIdempotent(text: string)
    ensures GenerateSlug(GenerateSlug(text)) == GenerateSlug(text)
    ensures GenerateSlug(text) == text <==> IsSlug(text)
  {
    SlugIsFixedPoint(GenerateSlug(text));
    if IsSlug(text) { SlugIsFixedPoint(text); }
  }

  // ---------------------------------------------------------------------
  // adjustOpacity
  // ---------------------------------------------------------------------

  /**
   * `adjustOpacity(color, opacity)`; `opacity` is the decimal text JavaScript
   * prints for the number. Both `replace` calls use string patterns, so each
   * rewrites only its first occurrence.
   */
  function AdjustOpacity(color: string, opacity: string): (r: string)
    ensures !StartsWith(color, "hsl") ==> r == color
  {
    if StartsWith(color, "hsl") then
      ReplaceFirst(ReplaceFirst(color, "hsl(", "hsla("), ")", ", " + opacity + ")")
    else color
  }

  /** A plain `hsl(…)` colour becomes the `hsla(…, opacity)` colour with the same components. */
  lemma AdjustOpacityOfHsl(body: string, opacity: string)
    requires forall k :: 0 <= k < |body| ==> body[k] != ')'
    ensures AdjustOpacity("hsl(" + body + ")", opacity) == "hsla(" + body + ", " + opacity + ")"
  {
    var c := "hsl(" + body + ")";
    assert StartsWith(c, "hsl");
    assert OccursAt(c, "hsl(", 0);
    var c1 := ReplaceFirst(c, "hsl(", "hsla(");
    assert c1 == "hsla(" + body + ")" by {
      assert IndexOf(c, "hsl(") == Some(0);
      assert c[4..] == body + ")";
    }
    var at := 5 + |body|;
    assert OccursAt(c1, ")", at);
    forall j | 0 <= j < at ensures !OccursAt(c1, ")", j) {
      assert c1[j..j + 1] == [c1[j]];
      if j >= 5 { assert c1[j] == body[j - 5]; } else { assert c1[j] == "hsla("[j]; }
    }
    assert IndexOf(c1, ")") == Some(at);
    assert c1[..at] == "hsla(" + body;
    assert c1[at + 1..] == [];
  }
}
