/** The Python string built-ins that the auto-save hook relies on, modelled
    on sequences of characters: str.lower, str.startswith, str.endswith,
    str.split(sep)[-1], str.rpartition(sep), str.zfill, str(int), int(str)
    and re.findall(r'\d+', s)[0]. Case folding and digits are ASCII only. */
module PyStr {
  import opened Wrappers

  predicate IsDigit(c: char) { '0' <= c <= '9' }

  predicate AllDigits(s: string) { forall i :: 0 <= i < |s| ==> IsDigit(s[i]) }

  predicate NoDigits(s: string) { forall i :: 0 <= i < |s| ==> !IsDigit(s[i]) }

  predicate AllChar(s: string, c: char) { forall i :: 0 <= i < |s| ==> s[i] == c }

  // ---------------------------------------------------------------- lower

  function LowerChar(c: char): char
  {
    if 'A' <= c <= 'Z' then (c as int + 32) as char else c
  }

  /** `s.lower()` on ASCII letters. */
  function Lower(s: string): (r: string)
    ensures |r| == |s|
  {
    if s == [] then [] else [LowerChar(s[0])] + Lower(s[1..])
  }

  lemma {:induction false} LowerAppend(a: string, b: string)
    ensures Lower(a + b) == Lower(a) + Lower(b)
  {
    if a == [] {
      assert a + b == b;
    } else {
      assert (a + b)[1..] == a[1..] + b;
      LowerAppend(a[1..], b);
    }
  }

  /** A string without upper-case ASCII letters is its own lower-case form. */
  lemma {:induction false} LowerOfLowerCase(s: string)
    requires forall i :: 0 <= i < |s| ==> !('A' <= s[i] <= 'Z')
    ensures Lower(s) == s
  {
    if s != [] {
      assert forall i :: 0 <= i < |s| - 1 ==> s[1..][i] == s[i + 1];
      LowerOfLowerCase(s[1..]);
    }
  }

  // ------------------------------------------------- startswith, endswith

  predicate StartsWith(s: string, prefix: string)
  {
    |prefix| <= |s| && s[..|prefix|] == prefix
  }

  predicate EndsWith(s: string, suffix: string)
  {
    |suffix| <= |s| && s[|s| - |suffix|..] == suffix
  }

  lemma DropFirst(p: string, s: string)
    requires p != []
    ensures (p + s)[1..] == p[1..] + s
  {
  }

  lemma ConcatAssoc(a: string, b: string, c: string, d: string)
    ensures (a + (b + c)) + d == a + (b + (c + d))
  {
  }

  /** `a + (b + c)` starts with `a` and ends with `c`. */
  lemma ConcatEnds(a: string, b: string, c: string)
    ensures StartsWith(a + (b + c), a) && EndsWith(a + (b + c), c)
  {
    var s := a + (b + c);
    assert s[..|a|] == a;
    assert s[|s| - |c|..] == c;
  }

  /** What decides `EndsWith(x + tail, suffix)` when the suffix is no
      longer than the known tail. */
  lemma EndsWithAppend(x: string, tail: string, suffix: string)
    requires |suffix| <= |tail|
    ensures EndsWith(x + tail, suffix) <==> EndsWith(tail, suffix)
  {
    assert (x + tail)[|x + tail| - |suffix|..] == tail[|tail| - |suffix|..];
  }

  /** A longer suffix of `x + tail` ends with `tail` itself. */
  lemma EndsWithLonger(x: string, tail: string, suffix: string)
    requires |tail| <= |suffix|
    ensures EndsWith(x + tail, suffix) ==> suffix[|suffix| - |tail|..] == tail
  {
    var s := x + tail;
    if EndsWith(s, suffix) {
      assert s[|s| - |suffix|..][|suffix| - |tail|..] == s[|s| - |tail|..];
      assert s[|s| - |tail|..] == tail;
    }
  }

  // ------------------------------------------------------- split(sep)[-1]

  /** `sep` occurs in `s` at position `i`. */
  predicate OccursAt(s: string, sep: string, i: int)
  {
    0 <= i && i + |sep| <= |s| && s[i..i + |sep|] == sep
  }

  /** `s.find(sep, from)`: the first position at or after `from` where
      `sep` occurs. */
  function FindFrom(s: string, sep: string, from: nat): (r: Option<nat>)
    ensures r.Some? ==> from <= r.value && OccursAt(s, sep, r.value)
    ensures r.Some? ==> forall j :: from <= j < r.value ==> !OccursAt(s, sep, j)
    ensures r.None? ==> forall j :: from <= j ==> !OccursAt(s, sep, j)
    decreases |s| - from
  {
    if from + |sep| > |s| then None
    else if OccursAt(s, sep, from) then Some(from)
    else FindFrom(s, sep, from + 1)
  }

  /** An occurrence in a suffix is an occurrence in the whole string. */
  lemma OccursAtSuffix(s: string, sep: string, k: nat, j: nat)
    requires k <= |s|
    ensures OccursAt(s[k..], sep, j) <==> OccursAt(s, sep, k + j)
  {
    if j + |sep| <= |s| - k {
      assert s[k..][j..j + |sep|] == s[k + j..k + j + |sep|];
    }
  }

  /** `s.split(sep)[-1]`: Python's split scans from the left for
      non-overlapping occurrences of `sep`; the last piece is what follows
      the final one. */
  function SplitLast(s: string, sep: string): string
    requires sep != []
    decreases |s|
  {
    match FindFrom(s, sep, 0)
    case None => s
    case Some(i) => SplitLast(s[i + |sep|..], sep)
  }

  /** `r` is a suffix of `s` that is either all of `s` or directly
      preceded by `sep`. */
  predicate PieceAfterSep(s: string, r: string, sep: string)
  {
    && |r| <= |s| && r == s[|s| - |r|..]
    && (r == s || (|r| + |sep| <= |s| && s[|s| - |r| - |sep|..|s| - |r|] == sep))
  }

  /** The last piece is a suffix of `s` that is either all of `s` or
      preceded by `sep`. */
  lemma {:induction false} SplitLastSuffix(s: string, sep: string)
    requires sep != []
    ensures PieceAfterSep(s, SplitLast(s, sep), sep)
    decreases |s|, 1
  {
    match FindFrom(s, sep, 0)
    case None =>
      assert SplitLast(s, sep) == s;
      assert s[|s| - |s|..] == s;
    case Some(i) =>
      var m := i + |sep|;
      assert SplitLast(s, sep) == SplitLast(s[m..], sep);
      SplitLastPiece(s, m, sep);
  }

  /** `sep` does not occur in the last piece. */
  lemma {:induction false} SplitLastNoSep(s: string, sep: string)
    requires sep != []
    ensures forall j :: !OccursAt(SplitLast(s, sep), sep, j)
    decreases |s|
  {
    match FindFrom(s, sep, 0)
    case None =>
      assert SplitLast(s, sep) == s;
      forall j ensures !OccursAt(s, sep, j) {
        if 0 <= j { assert !OccursAt(s, sep, j); }
      }
    case Some(i) =>
      var m := i + |sep|;
      assert SplitLast(s, sep) == SplitLast(s[m..], sep);
      SplitLastNoSep(s[m..], sep);
  }

  /** The last piece of the rest after an occurrence ending at `m` is a
      suffix of `s` preceded by `sep`. */
  lemma {:induction false} SplitLastPiece(s: string, m: nat, sep: string)
    requires sep != [] && |sep| <= m <= |s| && s[m - |sep|..m] == sep
    ensures PieceAfterSep(s, SplitLast(s[m..], sep), sep)
    decreases |s|, 0
  {
    var t := s[m..];
    var r := SplitLast(t, sep);
    SplitLastSuffix(t, sep);
    assert t[|t| - |r|..] == s[|s| - |r|..];
    if r != t {
      OccursAtSuffix(s, sep, m, |t| - |r| - |sep|);
    }
  }

  /** A separator that overlaps itself: `"aaa".split("aa")` is
      `["", "a"]`, so the last piece is `"a"`, not `""`. */
  lemma SplitLastOverlap()
    ensures SplitLast(['a', 'a', 'a'], ['a', 'a']) == ['a']
  {
    var s, sep := ['a', 'a', 'a'], ['a', 'a'];
    assert OccursAt(s, sep, 0);
    assert FindFrom(s, sep, 0) == Some(0);
    assert s[2..] == ['a'];
    assert FindFrom(['a'], sep, 0) == None;
  }

  /** When `s` starts with `sep` and `sep` does not occur again in the
      rest, the last piece of the split is that rest. */
  lemma SplitLastAfterPrefix(sep: string, rest: string)
    requires sep != []
    requires forall j :: !OccursAt(rest, sep, j)
    ensures SplitLast(sep + rest, sep) == rest
  {
    var s := sep + rest;
    assert s[..|sep|] == sep && s[|sep|..] == rest;
    assert OccursAt(s, sep, 0);
    assert FindFrom(s, sep, 0) == Some(0);
    assert FindFrom(rest, sep, 0) == None;
  }

  // ------------------------------------------------------------ rpartition

  /** `s.rpartition(sep)[0]`: everything before the last `sep`, or the
      empty string when `sep` does not occur. */
  function RPartitionHead(s: string, sep: char): (r: string)
    ensures sep !in s ==> r == []
    ensures sep in s ==> |r| < |s| && s[..|r|] == r && s[|r|] == sep && sep !in s[|r| + 1..]
  {
    if s == [] then []
    else if s[|s| - 1] == sep then s[..|s| - 1]
    else
      var r := RPartitionHead(s[..|s| - 1], sep);
      assert sep in s ==> sep in s[..|s| - 1] by {
        if sep in s {
          var k :| 0 <= k < |s| && s[k] == sep;
          assert s[..|s| - 1][k] == sep;
        }
      }
      assert sep in s ==> s[|r| + 1..] == s[..|s| - 1][|r| + 1..] + [s[|s| - 1]];
      r
  }

  /** The text before a separator that does not occur after it. */
  lemma RPartitionHeadOf(head: string, tail: string, sep: char)
    requires sep !in tail
    ensures RPartitionHead(head + [sep] + tail, sep) == head
  {
    var s := head + [sep] + tail;
    assert s[|head|] == sep;
    assert s[|head| + 1..] == tail;
    var r := RPartitionHead(s, sep);
    if |r| < |head| {
      InSuffix(s, |r| + 1, |head|);
    }
    if |r| > |head| {
      InSuffix(s, |head| + 1, |r|);
    }
    assert s[..|head|] == head;
  }

  lemma InSuffix(s: string, k: int, i: int)
    requires 0 <= k <= i < |s|
    ensures s[i] in s[k..]
  {
    assert s[k..][i - k] == s[i];
  }

  /** `s.rpartition(sep)[2]`: everything after the last `sep`, or all of
      `s` when `sep` does not occur. */
  function RPartitionTail(s: string, sep: char): (r: string)
    ensures |r| <= |s| && r == s[|s| - |r|..]
    ensures sep !in r
    ensures r == s || s[|s| - |r| - 1] == sep
  {
    if s == [] then []
    else if s[|s| - 1] == sep then []
    else
      var r := RPartitionTail(s[..|s| - 1], sep);
      assert s[|s| - |r| - 1..] == s[..|s| - 1][|s| - 1 - |r|..] + [s[|s| - 1]];
      r + [s[|s| - 1]]
  }

  /** `s.rstrip(c)`. */
  function RStrip(s: string, c: char): (r: string)
    ensures |r| <= |s| && s[..|r|] == r
    ensures r == [] || r[|r| - 1] != c
    ensures AllChar(s[|r|..], c)
  {
    if s == [] || s[|s| - 1] != c then s
    else
      var r := RStrip(s[..|s| - 1], c);
      assert s[|r|..] == s[..|s| - 1][|r|..] + [c];
      r
  }

  // ------------------------------------------------------ str(n), int(s)

  function DigitValue(c: char): nat
    requires IsDigit(c)
  {
    c as int - '0' as int
  }

  function DigitChar(d: nat): (c: char)
    requires d < 10
    ensures IsDigit(c) && DigitValue(c) == d
  {
    ('0' as int + d) as char
  }

  /** `int(s)` for a run of decimal digits; leading zeros add nothing. */
  function ParseNat(s: string): nat
    requires AllDigits(s)
  {
    if s == [] then 0 else ParseNat(s[..|s| - 1]) * 10 + DigitValue(s[|s| - 1])
  }

  /** `str(n)` for a natural number: its shortest decimal rendering, which
      `int` reads back as `n`. */
  function NatToString(n: nat): (r: string)
    ensures r != [] && AllDigits(r)
    ensures r[0] != '0' || r == "0"
    ensures ParseNat(r) == n
  {
    if n < 10 then [DigitChar(n)]
    else
      var r := NatToString(n / 10) + [DigitChar(n % 10)];
      assert r[..|r| - 1] == NatToString(n / 10);
      r
  }

  /** `str(i)` for any integer: a minus sign before the magnitude when
      negative. */
  function IntToString(i: int): (r: string)
    ensures i >= 0 ==> r != [] && AllDigits(r) && ParseNat(r) == i
    ensures i < 0 ==> |r| >= 2 && r[0] == '-' && AllDigits(r[1..]) && ParseNat(r[1..]) == -i
  {
    if i < 0 then "-" + NatToString(-i) else NatToString(i)
  }

  function Zeros(k: nat): (r: string)
    ensures |r| == k && AllChar(r, '0') && AllDigits(r)
  {
    if k == 0 then [] else Zeros(k - 1) + ['0']
  }

  lemma {:induction false} ParseZeros(k: nat)
    ensures ParseNat(Zeros(k)) == 0
  {
    if k > 0 {
      assert Zeros(k)[..k - 1] == Zeros(k - 1);
      ParseZeros(k - 1);
    }
  }

  /** Leading zeros do not change the value `int` reads. */
  lemma {:induction false} ParseLeadingZeros(k: nat, s: string)
    requires AllDigits(s)
    ensures AllDigits(Zeros(k) + s)
    ensures ParseNat(Zeros(k) + s) == ParseNat(s)
    decreases |s|
  {
    if s == [] {
      assert Zeros(k) + s == Zeros(k);
      ParseZeros(k);
    } else {
      var t := Zeros(k) + s;
      assert t[..|t| - 1] == Zeros(k) + s[..|s| - 1];
      ParseLeadingZeros(k, s[..|s| - 1]);
    }
  }

  /** `s.zfill(width)`: pads with `0` on the left up to `width`
      characters, keeping a leading sign in front, and never truncates. */
  function ZFill(s: string, width: nat): (r: string)
    ensures |r| == if |s| >= width then |s| else width
    ensures |s| >= width ==> r == s
    ensures |s| < width && s != [] && (s[0] == '+' || s[0] == '-') ==>
      r == [s[0]] + Zeros(|r| - |s|) + s[1..]
    ensures |s| < width && (s == [] || (s[0] != '+' && s[0] != '-')) ==>
      r == Zeros(|r| - |s|) + s
  {
    if |s| >= width then s
    else if s != [] && (s[0] == '+' || s[0] == '-') then [s[0]] + Zeros(width - |s|) + s[1..]
    else Zeros(width - |s|) + s
  }

  // -------------------------------------------- re.findall(r'\d+', s)[0]

  /** The longest prefix of `s` made of digits. */
  function DigitPrefix(s: string): (r: string)
    ensures |r| <= |s| && s[..|r|] == r && AllDigits(r)
    ensures |r| == |s| || !IsDigit(s[|r|])
  {
    if s == [] || !IsDigit(s[0]) then []
    else [s[0]] + DigitPrefix(s[1..])
  }

  /** `run` is the first maximal run of digits in `s`, starting at `k`. */
  ghost predicate FirstRunAt(s: string, k: int, run: string)
  {
    0 <= k && k + |run| <= |s| && NoDigits(s[..k]) && s[k..k + |run|] == run
    && (k + |run| == |s| || !IsDigit(s[k + |run|]))
  }

  /** The first match of `\d+` in `s`, if any: the first maximal run of
      ASCII digits. */
  function FirstDigitRun(s: string): (r: Option<string>)
    ensures r.None? <==> NoDigits(s)
    ensures r.Some? ==> r.value != [] && AllDigits(r.value)
    ensures r.Some? ==> exists k :: FirstRunAt(s, k, r.value)
  {
    if s == [] then None
    else if IsDigit(s[0]) then
      var run := DigitPrefix(s);
      assert FirstRunAt(s, 0, run);
      Some(run)
    else
      var r := FirstDigitRun(s[1..]);
      assert NoDigits(s[1..]) ==> NoDigits(s) by {
        if NoDigits(s[1..]) {
          forall i | 0 < i < |s| ensures !IsDigit(s[i]) { assert s[i] == s[1..][i - 1]; }
        }
      }
      assert r.Some? ==> exists k :: FirstRunAt(s, k, r.value) by {
        if r.Some? {
          var k :| FirstRunAt(s[1..], k, r.value);
          assert s[..k + 1] == [s[0]] + s[1..][..k];
          assert s[k + 1..k + 1 + |r.value|] == s[1..][k..k + |r.value|];
          assert FirstRunAt(s, k + 1, r.value);
        }
      }
      r
  }

  /** `\d+` finds nothing in a character that is not a digit, so it skips a
      non-digit prefix. */
  lemma {:induction false} FirstDigitRunSkips(p: string, s: string)
    requires NoDigits(p)
    ensures FirstDigitRun(p + s) == FirstDigitRun(s)
    decreases |p|
  {
    if p != [] {
      var q := p + s;
      assert q[0] == p[0] && !IsDigit(p[0]);
      FirstDigitRunSkipsOne(q);
      DropFirst(p, s);
      assert NoDigits(p[1..]) by {
        forall i | 0 <= i < |p| - 1 ensures !IsDigit(p[1..][i]) { assert p[1..][i] == p[i + 1]; }
      }
      FirstDigitRunSkips(p[1..], s);
    } else {
      assert p + s == s;
    }
  }

  lemma FirstDigitRunSkipsOne(q: string)
    requires q != [] && !IsDigit(q[0])
    ensures FirstDigitRun(q) == FirstDigitRun(q[1..])
  {
  }

  /** A run of digits followed by nothing or a non-digit is the first
      match. */
  lemma FirstDigitRunOfRun(run: string, rest: string)
    requires run != [] && AllDigits(run)
    requires rest == [] || !IsDigit(rest[0])
    ensures FirstDigitRun(run + rest) == Some(run)
  {
    DigitPrefixOfRun(run, rest);
  }

  lemma {:induction false} DigitPrefixOfRun(run: string, rest: string)
    requires AllDigits(run)
    requires rest == [] || !IsDigit(rest[0])
    ensures DigitPrefix(run + rest) == run
    decreases |run|
  {
    if run == [] {
      assert run + rest == rest;
    } else {
      var s := run + rest;
      assert s[0] == run[0] && s[1..] == run[1..] + rest;
      assert AllDigits(run[1..]) by {
        forall i | 0 <= i < |run| - 1 ensures IsDigit(run[1..][i]) { assert run[1..][i] == run[i + 1]; }
      }
      DigitPrefixOfRun(run[1..], rest);
      assert [run[0]] + run[1..] == run;
    }
  }
}
