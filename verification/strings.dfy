/**
 * The JavaScript string operations the core relies on, over `string`
 * (`seq<char>`): `includes`, `endsWith`, global removal with
 * `replace(/lit/g, "")`, `trim`, `toLowerCase` and number formatting.
 */
module Strings {

  // ---------------------------------------------------------------------
  // includes / endsWith
  // ---------------------------------------------------------------------

  /** `s.includes(sub)`: `sub` occurs somewhere in `s`. */
  predicate Contains(s: string, sub: string)
    decreases |s|
  {
    sub <= s || (|s| > 0 && Contains(s[1..], sub))
  }

  /** `sub` occurs in `s` starting at index `i`. */
  predicate OccursAt(s: string, sub: string, i: int)
  {
    0 <= i && i + |sub| <= |s| && s[i..i + |sub|] == sub
  }

  /** `Contains` is exactly "occurs at some index". */
  lemma {:induction false} ContainsIffOccurs(s: string, sub: string)
    ensures Contains(s, sub) <==> exists i :: OccursAt(s, sub, i)
    decreases |s|
  {
    if sub <= s {
      assert OccursAt(s, sub, 0);
    } else if |s| > 0 {
      ContainsIffOccurs(s[1..], sub);
      forall i | OccursAt(s, sub, i) && i > 0
        ensures OccursAt(s[1..], sub, i - 1)
      {
        assert s[1..][i - 1..i - 1 + |sub|] == s[i..i + |sub|];
      }
      forall j | OccursAt(s[1..], sub, j)
        ensures OccursAt(s, sub, j + 1)
      {
        assert s[j + 1..j + 1 + |sub|] == s[1..][j..j + |sub|];
      }
    }
  }

  /** An occurrence of a pattern is an occurrence of each of its prefixes. */
  lemma {:induction false} ContainsLongerPattern(s: string, p: string, q: string)
    requires Contains(s, p + q)
    ensures Contains(s, p)
    decreases |s|
  {
    if p + q <= s {
      assert (p + q)[..|p|] == p;
      assert s[..|p|] == p;
    } else {
      ContainsLongerPattern(s[1..], p, q);
    }
  }

  /** An occurrence inside a slice is an occurrence in the whole string. */
  lemma ContainsInSlice(s: string, sub: string, lo: nat, hi: nat)
    requires lo <= hi <= |s|
    requires Contains(s[lo..hi], sub)
    ensures Contains(s, sub)
  {
    ContainsIffOccurs(s[lo..hi], sub);
    var i :| OccursAt(s[lo..hi], sub, i);
    var t := s[lo..hi];
    var window := s[lo + i..lo + i + |sub|];
    forall k | 0 <= k < |sub|
      ensures window[k] == sub[k]
    {
      assert sub[k] == t[i..i + |sub|][k] == t[i + k];
    }
    assert window == sub;
    assert OccursAt(s, sub, lo + i);
    ContainsIffOccurs(s, sub);
  }

  /** `s.endsWith(suffix)`. */
  predicate EndsWith(s: string, suffix: string)
  {
    |suffix| <= |s| && s[|s| - |suffix|..] == suffix
  }

  // ---------------------------------------------------------------------
  // replace(/lit/g, "")
  // ---------------------------------------------------------------------

  /**
   * `s.replace(/pat/g, "")` for a literal, non-empty pattern: the scan
   * removes the leftmost occurrence and resumes right after it, so the
   * removed occurrences never overlap.
   */
  function RemoveAll(s: string, pat: string): (r: string)
    requires |pat| > 0
    ensures |r| <= |s|
    decreases |s|
  {
    if |s| == 0 then ""
    else if pat <= s then RemoveAll(s[|pat|..], pat)
    else [s[0]] + RemoveAll(s[1..], pat)
  }

  /** Removing a pattern that does not occur leaves the string unchanged. */
  lemma {:induction false} RemoveAllAbsent(s: string, pat: string)
    requires |pat| > 0
    requires !Contains(s, pat)
    ensures RemoveAll(s, pat) == s
    decreases |s|
  {
    if |s| > 0 {
      RemoveAllAbsent(s[1..], pat);
      assert [s[0]] + s[1..] == s;
    }
  }

  /**
   * The global replace up to its first match: everything in front of the
   * leftmost occurrence is kept, that occurrence is dropped, and removal
   * carries on after it. With `RemoveAllAbsent` this describes `RemoveAll`
   * for every text and pattern.
   */
  lemma RemoveAllLeftmost(s: string, pat: string, i: nat)
    requires |pat| > 0 && OccursAt(s, pat, i)
    requires forall j :: 0 <= j < i ==> !OccursAt(s, pat, j)
    ensures RemoveAll(s, pat) == s[..i] + RemoveAll(s[i + |pat|..], pat)
  {
    RemoveAllFrom(s, pat, 0, i);
    assert s[0..] == s;
  }

  /** `RemoveAllLeftmost` for the suffix `s[k..]`, by induction on the distance to `i`. */
  lemma {:induction false} RemoveAllFrom(s: string, pat: string, k: nat, i: nat)
    requires |pat| > 0 && k <= i && OccursAt(s, pat, i)
    requires forall j :: k <= j < i ==> !OccursAt(s, pat, j)
    ensures RemoveAll(s[k..], pat) == s[k..i] + RemoveAll(s[i + |pat|..], pat)
    decreases i - k
  {
    if k == i {
      RemoveAllAtOccurrence(s, pat, i);
    } else {
      RemoveAllFrom(s, pat, k + 1, i);
      RemoveAllFromStep(s, pat, k, i);
    }
  }

  /** Removal from an occurrence drops it first. */
  lemma RemoveAllAtOccurrence(s: string, pat: string, i: nat)
    requires |pat| > 0 && OccursAt(s, pat, i)
    ensures RemoveAll(s[i..], pat) == s[i..i] + RemoveAll(s[i + |pat|..], pat)
  {
    assert s[i..][..|pat|] == pat;
    assert s[i..][|pat|..] == s[i + |pat|..];
    assert s[i..i] == [];
  }

  /** Removal from a position where no occurrence starts keeps that character. */
  lemma RemoveAllFromStep(s: string, pat: string, k: nat, i: nat)
    requires |pat| > 0 && k < i && i + |pat| <= |s| && !OccursAt(s, pat, k)
    requires RemoveAll(s[k + 1..], pat) == s[k + 1..i] + RemoveAll(s[i + |pat|..], pat)
    ensures RemoveAll(s[k..], pat) == s[k..i] + RemoveAll(s[i + |pat|..], pat)
  {
    PrefixAtIsOccurrence(s, pat, k);
    RemoveAllKeeps(s[k..], pat);
    assert s[k..][1..] == s[k + 1..];
    ConsSliceAt(s, k, i, RemoveAll(s[i + |pat|..], pat));
  }

  /** `pat` as a prefix of `s[k..]` is an occurrence at `k`. */
  lemma PrefixAtIsOccurrence(s: string, pat: string, k: nat)
    requires k < |s|
    ensures pat <= s[k..] ==> OccursAt(s, pat, k)
  {
    if pat <= s[k..] {
      assert s[k..k + |pat|] == s[k..][..|pat|];
    }
  }

  /** Putting a character back in front of the slice that follows it. */
  lemma ConsSliceAt(s: string, k: nat, i: nat, rest: string)
    requires k < i <= |s|
    ensures [s[k..][0]] + (s[k + 1..i] + rest) == s[k..i] + rest
  {
    assert [s[k]] + s[k + 1..i] == s[k..i];
  }

  /** The triple back-tick of a Markdown code fence. */
  const Fence: string := "```"

  /** Number of back-ticks at the start of `s`. */
  function LeadingTicks(s: string): nat
    decreases |s|
  {
    if |s| > 0 && s[0] == '`' then 1 + LeadingTicks(s[1..]) else 0
  }

  lemma FencePrefixIffTicks(s: string)
    ensures Fence <= s <==> LeadingTicks(s) >= 3
    ensures "``" <= s <==> LeadingTicks(s) >= 2
  {
    if |s| >= 3 {
      assert s[1..][1..] == s[2..];
    } else if |s| == 2 {
      assert s[1..][1..] == [];
    }
  }

  /**
   * Removing every "```" leaves no "```" behind: each maximal run of n
   * back-ticks shrinks to n % 3 of them, and removal only ever joins a run
   * to a character that is not a back-tick.
   */
  lemma {:induction false} RemoveFenceLeavesNoFence(s: string)
    ensures !Contains(RemoveAll(s, Fence), Fence)
    ensures LeadingTicks(RemoveAll(s, Fence)) == LeadingTicks(s) % 3
    decreases |s|
  {
    var r := RemoveAll(s, Fence);
    FencePrefixIffTicks(s);
    if |s| == 0 {
      assert r == "";
    } else if Fence <= s {
      RemoveFenceLeavesNoFence(s[3..]);
      assert s[1..][1..][1..] == s[3..];
      assert LeadingTicks(s) == 3 + LeadingTicks(s[3..]);
    } else {
      var rest := RemoveAll(s[1..], Fence);
      RemoveFenceLeavesNoFence(s[1..]);
      assert r == [s[0]] + rest;
      assert r[1..] == rest;
      FencePrefixIffTicks(r);
      FencePrefixIffTicks(rest);
      if s[0] == '`' {
        assert LeadingTicks(s) == 1 + LeadingTicks(s[1..]);
        assert LeadingTicks(r) == 1 + LeadingTicks(rest);
      } else {
        assert LeadingTicks(r) == 0;
      }
    }
  }

  /** A string that starts with a fence starts with three back-ticks. */
  lemma FenceStartsWithTicks(s: string)
    requires Fence <= s
    ensures |s| >= 3 && s[0] == '`' && s[1] == '`' && s[2] == '`'
  {
    assert s[..3] == Fence;
  }

  /** A run of `n` back-ticks. */
  function Ticks(n: nat): (t: string)
    ensures |t| == n && forall i :: 0 <= i < n ==> t[i] == '`'
  {
    seq(n, _ => '`')
  }

  /** A run of `n` back-ticks on its own shrinks to `n % 3` of them. */
  lemma {:induction false} RemoveFenceRun(n: nat)
    ensures RemoveAll(Ticks(n), Fence) == Ticks(n % 3)
    decreases n
  {
    var t := Ticks(n);
    if n >= 3 {
      assert t[..3] == Fence;
      assert t[3..] == Ticks(n - 3);
      RemoveFenceRun(n - 3);
    } else {
      ContainsIffOccurs(t, Fence);
      RemoveAllAbsent(t, Fence);
    }
  }

  /**
   * Removal never reaches across a character that is not a back-tick: the
   * text on either side of it is cleaned on its own and the character stays.
   * With `RemoveFenceRun` this determines the result on every input.
   */
  lemma {:induction false} RemoveFenceSplits(a: string, c: char, b: string)
    requires c != '`'
    ensures RemoveAll(a + [c] + b, Fence) == RemoveAll(a, Fence) + [c] + RemoveAll(b, Fence)
    decreases |a|
  {
    if a == [] {
      var s := a + [c] + b;
      assert s == [c] + b && s[0] == c && s[1..] == b;
    } else if Fence <= a {
      RemoveFenceSplits(a[3..], c, b);
      SplitsSkipFence(a, c, b);
    } else {
      RemoveFenceSplits(a[1..], c, b);
      NoFenceAcrossNonTick(a, c, b);
      SplitsKeepFirst(a, c, b, Fence);
    }
  }

  /** The step of `RemoveFenceSplits` where `a` starts with a fence. */
  lemma SplitsSkipFence(a: string, c: char, b: string)
    requires c != '`' && Fence <= a
    requires RemoveAll(a[3..] + [c] + b, Fence) == RemoveAll(a[3..], Fence) + [c] + RemoveAll(b, Fence)
    ensures RemoveAll(a + [c] + b, Fence) == RemoveAll(a, Fence) + [c] + RemoveAll(b, Fence)
  {
    SplitsSkip(a, c, b, Fence);
  }

  /** The same step for any pattern that starts `a`. */
  lemma SplitsSkip(a: string, c: char, b: string, pat: string)
    requires |pat| > 0 && pat <= a
    requires RemoveAll(a[|pat|..] + [c] + b, pat) == RemoveAll(a[|pat|..], pat) + [c] + RemoveAll(b, pat)
    ensures RemoveAll(a + [c] + b, pat) == RemoveAll(a, pat) + [c] + RemoveAll(b, pat)
  {
    SplitsSkipFirst(a, c, b, pat);
  }

  /** An occurrence at the front of `a` is skipped in `a + [c] + b` as in `a`. */
  lemma SplitsSkipFirst(a: string, c: char, b: string, pat: string)
    requires |pat| > 0 && pat <= a
    ensures RemoveAll(a + [c] + b, pat) == RemoveAll(a[|pat|..] + [c] + b, pat)
    ensures RemoveAll(a, pat) == RemoveAll(a[|pat|..], pat)
  {
    DropPrefixOfJoin(a, c, b, |pat|);
  }

  /** Cutting `k` characters off the front of `a + [c] + b`, with `k` within `a`. */
  lemma DropPrefixOfJoin(a: string, c: char, b: string, k: nat)
    requires k <= |a|
    ensures (a + [c] + b)[..k] == a[..k]
    ensures (a + [c] + b)[k..] == a[k..] + [c] + b
  {
  }

  /** A fence cannot start in `a` and run past a character that is not a back-tick. */
  lemma NoFenceAcrossNonTick(a: string, c: char, b: string)
    requires c != '`' && !(Fence <= a)
    ensures !(Fence <= a + [c] + b)
  {
    var s := a + [c] + b;
    if Fence <= s {
      FenceStartsWithTicks(s);
    }
  }

  /**
   * The step of `RemoveFenceSplits` where no occurrence starts at the front:
   * the first character of `a` is kept in front of both sides.
   */
  lemma SplitsKeepFirst(a: string, c: char, b: string, pat: string)
    requires |pat| > 0 && a != [] && !(pat <= a) && !(pat <= a + [c] + b)
    requires RemoveAll(a[1..] + [c] + b, pat) == RemoveAll(a[1..], pat) + [c] + RemoveAll(b, pat)
    ensures RemoveAll(a + [c] + b, pat) == RemoveAll(a, pat) + [c] + RemoveAll(b, pat)
  {
    KeepFirstOfJoin(a, c, b, pat);
    RemoveAllKeeps(a, pat);
    ConsAssociates(a[0], RemoveAll(a[1..], pat), c, RemoveAll(b, pat));
  }

  /** Keeping the first character of `a` when no occurrence starts at the front of `a + [c] + b`. */
  lemma KeepFirstOfJoin(a: string, c: char, b: string, pat: string)
    requires |pat| > 0 && a != [] && !(pat <= a + [c] + b)
    ensures RemoveAll(a + [c] + b, pat) == [a[0]] + RemoveAll(a[1..] + [c] + b, pat)
  {
    var s := a + [c] + b;
    assert s[0] == a[0];
    assert s[1..] == a[1..] + [c] + b by {
      DropFirstOfConcat(a, [c] + b);
      assert s == a + ([c] + b);
      assert a[1..] + [c] + b == a[1..] + ([c] + b);
    }
    RemoveAllKeeps(s, pat);
  }

  /** Regrouping a character put in front of a three-part concatenation. */
  lemma ConsAssociates(h: char, x: string, c: char, y: string)
    ensures [h] + (x + [c] + y) == ([h] + x) + [c] + y
  {
  }

  /** Dropping the first character of a concatenation whose left part is non-empty. */
  lemma DropFirstOfConcat(a: string, t: string)
    requires |a| > 0
    ensures (a + t)[1..] == a[1..] + t
  {
  }

  /** Where the pattern does not start, the first character is kept. */
  lemma RemoveAllKeeps(s: string, pat: string)
    requires |pat| > 0 && |s| > 0 && !(pat <= s)
    ensures RemoveAll(s, pat) == [s[0]] + RemoveAll(s[1..], pat)
  {
  }

  /**
   * A fence after text that holds no fence and does not end in a back-tick
   * is the only thing removed.
   */
  lemma {:induction false} RemoveFenceTrailing(s: string)
    requires !Contains(s, Fence)
    requires |s| > 0 ==> s[|s| - 1] != '`'
    ensures RemoveAll(s + Fence, Fence) == s
    decreases |s|
  {
    var t := s + Fence;
    if |s| == 0 {
      assert t == Fence;
      assert t[3..] == [];
    } else {
      assert !(Fence <= t) by {
        if Fence <= t {
          FenceStartsWithTicks(t);
        }
      }
      assert t[0] == s[0];
      assert t[1..] == s[1..] + Fence;
      RemoveFenceTrailing(s[1..]);
      assert [s[0]] + s[1..] == s;
    }
  }

  // ---------------------------------------------------------------------
  // trim
  // ---------------------------------------------------------------------

  /**
   * The characters `String.prototype.trim` strips: ECMAScript WhiteSpace
   * (tab, vertical tab, form feed, the space separators and the byte-order
   * mark) and LineTerminator.
   */
  predicate IsWhiteSpace(c: char)
  {
    || c == '\t' || c == '\n' || c == '\U{000B}' || c == '\U{000C}' || c == '\r'
    || c == ' ' || c == '\U{00A0}' || c == '\U{1680}'
    || ('\U{2000}' <= c <= '\U{200A}')
    || c == '\U{2028}' || c == '\U{2029}' || c == '\U{202F}' || c == '\U{205F}'
    || c == '\U{3000}' || c == '\U{FEFF}'
  }

  /** Leading white space removed: a suffix of `s` preceded only by white space. */
  function TrimStart(s: string): (r: string)
    ensures |r| <= |s| && r == s[|s| - |r|..]
    ensures forall i :: 0 <= i < |s| - |r| ==> IsWhiteSpace(s[i])
    ensures |r| > 0 ==> !IsWhiteSpace(r[0])
    decreases |s|
  {
    if |s| > 0 && IsWhiteSpace(s[0]) then TrimStart(s[1..]) else s
  }

  /** Trailing white space removed: a prefix of `s` followed only by white space. */
  function TrimEnd(s: string): (r: string)
    ensures |r| <= |s| && r == s[..|r|]
    ensures forall i :: |r| <= i < |s| ==> IsWhiteSpace(s[i])
    ensures |r| > 0 ==> !IsWhiteSpace(r[|r| - 1])
    decreases |s|
  {
    if |s| > 0 && IsWhiteSpace(s[|s| - 1]) then TrimEnd(s[..|s| - 1]) else s
  }

  /** `s.trim()`. */
  function Trim(s: string): (r: string)
    ensures |r| > 0 ==> !IsWhiteSpace(r[0]) && !IsWhiteSpace(r[|r| - 1])
  {
    TrimEnd(TrimStart(s))
  }

  /** `trim` keeps a contiguous slice of its input and drops only white space around it. */
  lemma TrimIsSlice(s: string) returns (lo: nat, hi: nat)
    ensures lo <= hi <= |s| && Trim(s) == s[lo..hi]
    ensures forall i :: 0 <= i < lo ==> IsWhiteSpace(s[i])
    ensures forall i :: hi <= i < |s| ==> IsWhiteSpace(s[i])
  {
    var t := TrimStart(s);
    lo := |s| - |t|;
    hi := lo + |Trim(s)|;
    assert Trim(s) == t[..|Trim(s)|];
    assert t[..|Trim(s)|] == s[lo..hi];
    forall i | hi <= i < |s| ensures IsWhiteSpace(s[i]) {
      assert s[i] == t[i - lo];
    }
  }

  /** A string with no white space at either end is its own trim. */
  lemma {:induction false} TrimOfTrimmed(s: string)
    requires |s| > 0 ==> !IsWhiteSpace(s[0]) && !IsWhiteSpace(s[|s| - 1])
    ensures Trim(s) == s
  {
  }

  predicate AllWhiteSpace(s: string)
  {
    forall i :: 0 <= i < |s| ==> IsWhiteSpace(s[i])
  }

  /** Leading white space makes no difference to `trim`. */
  lemma TrimSkipsLeadingWhiteSpace(ws: string, t: string)
    requires AllWhiteSpace(ws)
    ensures Trim(ws + t) == Trim(t)
  {
    TrimStartSkips(ws, t);
  }

  lemma {:induction false} TrimStartSkips(ws: string, t: string)
    requires AllWhiteSpace(ws)
    ensures TrimStart(ws + t) == TrimStart(t)
    decreases |ws|
  {
    if |ws| > 0 {
      WhiteSpaceHead(ws, t);
      TrimStartDropsWhiteSpace(ws + t);
      DropFirstOfConcat(ws, t);
      TrimStartSkips(ws[1..], t);
    } else {
      assert ws + t == t;
    }
  }

  lemma WhiteSpaceHead(ws: string, t: string)
    requires AllWhiteSpace(ws) && |ws| > 0
    ensures IsWhiteSpace((ws + t)[0]) && AllWhiteSpace(ws[1..])
  {
    assert (ws + t)[0] == ws[0];
  }

  lemma TrimStartDropsWhiteSpace(s: string)
    requires |s| > 0 && IsWhiteSpace(s[0])
    ensures TrimStart(s) == TrimStart(s[1..])
  {
  }

  /** A "```" starts with a back-tick wherever it occurs. */
  lemma FenceAtIsTick(s: string, k: int)
    requires OccursAt(s, Fence, k)
    ensures s[k] == '`'
  {
    assert s[k..][..3] == Fence;
    FenceStartsWithTicks(s[k..]);
  }

  /** White space holds no back-tick, so no "```". */
  lemma WhiteSpaceHasNoFence(ws: string)
    requires AllWhiteSpace(ws)
    ensures !Contains(ws, Fence)
  {
    ContainsIffOccurs(ws, Fence);
    forall k | OccursAt(ws, Fence, k)
      ensures ws[k] == '`'
    {
      FenceAtIsTick(ws, k);
    }
  }

  /** `trim` is idempotent. */
  lemma TrimIdempotent(s: string)
    ensures Trim(Trim(s)) == Trim(s)
  {
    TrimOfTrimmed(Trim(s));
  }

  // ---------------------------------------------------------------------
  // toLowerCase
  // ---------------------------------------------------------------------

  /** Lower-case mapping of one character, on the ASCII letters. */
  function LowerChar(c: char): char
  {
    if 'A' <= c <= 'Z' then (c as int + 32) as char else c
  }

  /** `s.toLowerCase()`, character by character. */
  function Lower(s: string): (r: string)
    ensures |r| == |s|
    ensures forall i :: 0 <= i < |s| ==> r[i] == LowerChar(s[i])
  {
    seq(|s|, i requires 0 <= i < |s| => LowerChar(s[i]))
  }

  /** Lower-casing twice is lower-casing once. */
  lemma LowerIdempotent(s: string)
    ensures Lower(Lower(s)) == Lower(s)
  {
  }

  // ---------------------------------------------------------------------
  // Number formatting in template literals
  // ---------------------------------------------------------------------

  predicate IsDigit(c: char)
  {
    '0' <= c <= '9'
  }

  function DigitChar(d: nat): (c: char)
    requires d < 10
    ensures IsDigit(c)
  {
    ('0' as int + d) as char
  }

  /** The decimal numeral of `n`, as `${n}` prints a non-negative integer. */
  function NatToString(n: nat): (r: string)
    ensures |r| >= 1
    ensures forall i :: 0 <= i < |r| ==> IsDigit(r[i])
    ensures r[0] == '0' ==> n == 0
    decreases n
  {
    if n < 10 then [DigitChar(n)] else NatToString(n / 10) + [DigitChar(n % 10)]
  }

  /** The value of a numeral: the reference reading of `NatToString`'s output. */
  function DecimalValue(s: string): nat
    requires forall i :: 0 <= i < |s| ==> IsDigit(s[i])
    decreases |s|
  {
    if |s| == 0 then 0
    else
      var last := s[|s| - 1];
      assert IsDigit(last);
      10 * DecimalValue(s[..|s| - 1]) + (last as int - '0' as int)
  }

  /** Reading back the printed numeral gives the number: printing loses nothing. */
  lemma {:induction false} NatToStringRoundTrip(n: nat)
    ensures DecimalValue(NatToString(n)) == n
    decreases n
  {
    if n >= 10 {
      var prefix := NatToString(n / 10);
      var r := prefix + [DigitChar(n % 10)];
      assert r[..|r| - 1] == prefix;
      NatToStringRoundTrip(n / 10);
    }
  }
}
