/** The JavaScript string operations the fetcher relies on, over `string`:
    the decimal text of an integer (what `"0" + i` or `"NSE/" + year` yields),
    `split("/")` with `pop()`, its inverse `join("/")`, and `replace(pat, "")`
    with a string pattern, which removes the first occurrence only. */
module JsText {

  predicate IsDigit(c: char) { '0' <= c <= '9' }

  predicate AllDigits(s: string) { forall i :: 0 <= i < |s| ==> IsDigit(s[i]) }

  function DigitChar(d: nat): (c: char)
    requires d < 10
    ensures IsDigit(c)
  {
    ('0' as int + d) as char
  }

  function DigitValue(c: char): (d: nat)
    requires IsDigit(c)
    ensures d < 10 && DigitChar(d) == c
  {
    c as int - '0' as int
  }

  /** The decimal text of a natural number: digits only, no leading zero. */
  function NatText(n: nat): (s: string)
    ensures 1 <= |s| && AllDigits(s)
    ensures s[0] == '0' <==> n == 0
    ensures |s| == 1 <==> n < 10
  {
    if n < 10 then [DigitChar(n)] else NatText(n / 10) + [DigitChar(n % 10)]
  }

  /** `String(n)` for an integer: a minus sign in front of the magnitude when negative. */
  function IntText(n: int): (s: string)
    ensures 1 <= |s|
    ensures s[0] == '-' <==> n < 0
  {
    if n < 0 then "-" + NatText(-n) else NatText(n)
  }

  /** The JavaScript values the day codes take: a string, an integer number, or NaN. */
  datatype JsValue = Str(s: string) | Num(n: int) | NaNValue

  /** What `parseInt` makes of a field: an integer, or NaN when the text does not start with one. */
  datatype Parsed = Int(value: int) | NaN

  /** The text `+` writes for a value when the other operand is a string. */
  function ToText(v: JsValue): (t: string)
    ensures v.Num? ==> t == IntText(v.n)
    ensures v.Str? ==> t == v.s
  {
    match v
    case Str(s) => s
    case Num(n) => IntText(n)
    case NaNValue => "NaN"
  }

  /** `!v` for these values: the empty string, zero and NaN are falsy. */
  predicate Falsy(v: JsValue)
  {
    v == Str("") || v == Num(0) || v.NaNValue?
  }

  /** The value a numeral denotes: the reference NatText is proved against. */
  function DecimalValue(s: string): nat
    requires AllDigits(s)
  {
    if s == [] then 0 else DecimalValue(s[..|s| - 1]) * 10 + DigitValue(s[|s| - 1])
  }

  lemma {:induction false} DecimalValueOfNatText(n: nat)
    ensures DecimalValue(NatText(n)) == n
  {
    if n >= 10 {
      DecimalValueOfNatText(n / 10);
      var s := NatText(n);
      assert s[..|s| - 1] == NatText(n / 10);
    }
  }

  /** Distinct numbers have distinct decimal texts. */
  lemma NatTextInjective(a: nat, b: nat)
    requires NatText(a) == NatText(b)
    ensures a == b
  {
    DecimalValueOfNatText(a);
    DecimalValueOfNatText(b);
  }

  // ---------------------------------------------------------------------------
  // split("/") and join("/")

  /** `s.split("/")`: the maximal slash-free pieces of `s`, empty pieces included. */
  function Split(s: string): (parts: seq<string>)
    ensures |parts| >= 1
    ensures forall i :: 0 <= i < |parts| ==> '/' !in parts[i]
  {
    if s == [] then [""]
    else
      var rest := Split(s[1..]);
      if s[0] == '/' then [""] + rest else [[s[0]] + rest[0]] + rest[1..]
  }

  /** `parts.join("/")`. */
  function Join(parts: seq<string>): string
    requires |parts| >= 1
  {
    if |parts| == 1 then parts[0] else Join(parts[..|parts| - 1]) + "/" + parts[|parts| - 1]
  }

  /** `s.split("/").pop()`: the text after the last slash. */
  function LastSegment(s: string): string
  {
    var parts := Split(s);
    parts[|parts| - 1]
  }

  lemma {:induction false} JoinCons(a: string, rest: seq<string>)
    requires |rest| >= 1
    ensures Join([a] + rest) == a + "/" + Join(rest)
    decreases |rest|
  {
    if |rest| > 1 {
      var init, last := rest[..|rest| - 1], rest[|rest| - 1];
      JoinCons(a, init);
      var whole := [a] + rest;
      assert whole[..|whole| - 1] == [a] + init && whole[|whole| - 1] == last;
      assert Join(whole) == Join([a] + init) + "/" + last;
      assert Join(rest) == Join(init) + "/" + last;
      SlashAssoc(a, Join(init), last);
    }
  }

  lemma SlashAssoc(a: string, b: string, c: string)
    ensures a + "/" + b + "/" + c == a + "/" + (b + "/" + c)
  {
  }

  /** Joining the pieces of a split gives back the original text. */
  lemma {:induction false} JoinSplit(s: string)
    ensures Join(Split(s)) == s
  {
    if s != [] {
      var rest := Split(s[1..]);
      JoinSplit(s[1..]);
      if s[0] == '/' {
        JoinCons("", rest);
        assert "" + "/" + s[1..] == s;
      } else {
        JoinGrowFirst(s[0], rest);
        assert [s[0]] + s[1..] == s;
      }
    }
  }

  /** Putting a character in front of the first piece puts it in front of the join. */
  lemma JoinGrowFirst(c: char, parts: seq<string>)
    requires |parts| >= 1
    ensures Join([[c] + parts[0]] + parts[1..]) == [c] + Join(parts)
  {
    if |parts| > 1 {
      var first, rest := parts[0], parts[1..];
      assert [first] + rest == parts;
      JoinCons([c] + first, rest);
      JoinCons(first, rest);
      ConsAssoc(c, first, Join(rest));
    }
  }

  lemma ConsAssoc(c: char, a: string, b: string)
    ensures [c] + a + "/" + b == [c] + (a + "/" + b)
  {
  }

  lemma {:induction false} SplitSlashFree(s: string)
    requires '/' !in s
    ensures Split(s) == [s]
  {
    if s != [] {
      SplitSlashFree(s[1..]);
      assert [s[0]] + s[1..] == s;
    }
  }

  /** Splitting at a slash splits the two sides independently. */
  lemma {:induction false} SplitAppend(a: string, b: string)
    ensures Split(a + "/" + b) == Split(a) + Split(b)
  {
    if a == [] {
      assert a + "/" + b == "/" + b;
      assert ("/" + b)[1..] == b;
    } else {
      var s := a + "/" + b;
      assert s[0] == a[0] && s[1..] == a[1..] + "/" + b;
      SplitAppend(a[1..], b);
    }
  }

  /** Splitting undoes joining when no piece holds a slash. */
  lemma {:induction false} SplitJoin(parts: seq<string>)
    requires |parts| >= 1
    requires forall i :: 0 <= i < |parts| ==> '/' !in parts[i]
    ensures Split(Join(parts)) == parts
    decreases |parts|
  {
    var last := parts[|parts| - 1];
    SplitSlashFree(last);
    if |parts| > 1 {
      var init := parts[..|parts| - 1];
      SplitJoin(init);
      SplitAppend(Join(init), last);
      assert init + [last] == parts;
    }
  }

  /** The last segment of `a + "/" + b` is `b` when `b` holds no slash. */
  lemma LastSegmentAfterSlash(a: string, b: string)
    requires '/' !in b
    ensures LastSegment(a + "/" + b) == b
  {
    SplitAppend(a, b);
    SplitSlashFree(b);
  }

  /** Joining the first `k + 1` pieces gives the part of the whole before its (k+1)-th slash. */
  lemma {:induction false} JoinPrefix(parts: seq<string>, k: nat)
    requires k + 1 < |parts|
    ensures Join(parts) == Join(parts[..k + 1]) + "/" + Join(parts[k + 1..])
    decreases |parts|
  {
    var n := |parts|;
    var init := parts[..n - 1];
    if k + 1 < n - 1 {
      JoinPrefix(init, k);
      assert init[..k + 1] == parts[..k + 1];
      var tail := parts[k + 1..];
      assert tail[..|tail| - 1] == init[k + 1..] && tail[|tail| - 1] == parts[n - 1];
      assert Join(tail) == Join(init[k + 1..]) + "/" + parts[n - 1];
      SlashAssoc(Join(parts[..k + 1]), Join(init[k + 1..]), parts[n - 1]);
    } else {
      assert init == parts[..k + 1];
      assert parts[k + 1..] == [parts[n - 1]];
    }
  }

  // ---------------------------------------------------------------------------
  // replace(pat, "") with a string pattern

  ghost predicate OccursAt(s: string, pat: string, i: int)
  {
    0 <= i && i + |pat| <= |s| && s[i..i + |pat|] == pat
  }

  lemma OccursAtTail(s: string, pat: string, i: int)
    requires |s| >= 1 && 0 <= i
    ensures OccursAt(s[1..], pat, i) <==> OccursAt(s, pat, i + 1)
  {
    if 0 <= i && i + |pat| <= |s| - 1 {
      assert s[1..][i..i + |pat|] == s[i + 1..i + 1 + |pat|];
    }
  }

  /** `s.replace(pat, "")` with a string pattern. */
  function RemoveFirst(s: string, pat: string): string
    decreases |s|
  {
    if |s| < |pat| then s
    else if s[..|pat|] == pat then s[|pat|..]
    else [s[0]] + RemoveFirst(s[1..], pat)
  }

  /** RemoveFirst drops the first occurrence of `pat` and leaves `s` as it is when there is none. */
  lemma RemoveFirstDropsFirstOccurrence(s: string, pat: string)
    ensures (forall i :: !OccursAt(s, pat, i)) ==> RemoveFirst(s, pat) == s
    ensures forall i :: OccursAt(s, pat, i) && (forall j :: 0 <= j < i ==> !OccursAt(s, pat, j)) ==>
              RemoveFirst(s, pat) == s[..i] + s[i + |pat|..]
  {
    if forall i :: !OccursAt(s, pat, i) {
      RemoveFirstWithoutOccurrence(s, pat);
    }
    forall i | OccursAt(s, pat, i) && (forall j :: 0 <= j < i ==> !OccursAt(s, pat, j))
      ensures RemoveFirst(s, pat) == s[..i] + s[i + |pat|..]
    {
      RemoveFirstAtFirstOccurrence(s, pat, i);
    }
  }

  lemma {:induction false} RemoveFirstWithoutOccurrence(s: string, pat: string)
    requires forall i :: !OccursAt(s, pat, i)
    ensures RemoveFirst(s, pat) == s
    decreases |s|
  {
    if |s| >= |pat| {
      assert !OccursAt(s, pat, 0);
      var t := s[1..];
      forall i
        ensures !OccursAt(t, pat, i)
      {
        if 0 <= i {
          OccursAtTail(s, pat, i);
        }
      }
      RemoveFirstWithoutOccurrence(t, pat);
      RemoveFirstStep(s, pat);
      assert [s[0]] + t == s;
    }
  }

  lemma {:induction false} RemoveFirstAtFirstOccurrence(s: string, pat: string, i: int)
    requires OccursAt(s, pat, i) && forall j :: 0 <= j < i ==> !OccursAt(s, pat, j)
    ensures RemoveFirst(s, pat) == s[..i] + s[i + |pat|..]
    decreases |s|
  {
    if i == 0 {
      assert s[..|pat|] == pat;
    } else {
      var t := s[1..];
      OccursAtTail(s, pat, i - 1);
      forall j | 0 <= j < i - 1
        ensures !OccursAt(t, pat, j)
      {
        OccursAtTail(s, pat, j);
      }
      RemoveFirstAtFirstOccurrence(t, pat, i - 1);
      RemoveFirstStep(s, pat);
      assert [s[0]] + t[..i - 1] == s[..i];
      assert t[i - 1 + |pat|..] == s[i + |pat|..];
    }
  }

  /** Where no occurrence starts at the front, the first character is kept. */
  lemma RemoveFirstStep(s: string, pat: string)
    requires |s| >= 1 && !OccursAt(s, pat, 0)
    ensures RemoveFirst(s, pat) == [s[0]] + RemoveFirst(s[1..], pat)
  {
    if |s| < |pat| {
      assert RemoveFirst(s[1..], pat) == s[1..];
    }
  }

  /** The search for the first occurrence passes over a prefix in which none starts. */
  lemma {:induction false} RemoveFirstKeepsPrefix(a: string, b: string, pat: string)
    requires forall j :: 0 <= j < |a| ==> !OccursAt(a + b, pat, j)
    ensures RemoveFirst(a + b, pat) == a + RemoveFirst(b, pat)
    decreases |a|
  {
    if a == [] {
      assert a + b == b;
    } else {
      var s := a + b;
      var t := a[1..] + b;
      assert s[1..] == t;
      RemoveFirstStep(s, pat);
      forall j | 0 <= j < |a| - 1
        ensures !OccursAt(t, pat, j)
      {
        OccursAtTail(s, pat, j);
      }
      RemoveFirstKeepsPrefix(a[1..], b, pat);
      var r := RemoveFirst(b, pat);
      assert [a[0]] + a[1..] == a;
      assert [s[0]] + (a[1..] + r) == ([a[0]] + a[1..]) + r;
    }
  }

  /** With the pattern's first character absent from `a`, the occurrence right after `a` is the one removed. */
  lemma RemoveFirstAfterFreePrefix(a: string, pat: string, b: string)
    requires |pat| >= 1 && pat[0] !in a
    ensures RemoveFirst(a + pat + b, pat) == a + b
  {
    var s := a + (pat + b);
    assert a + pat + b == s;
    forall j | 0 <= j < |a|
      ensures !OccursAt(s, pat, j)
    {
      if j + |pat| <= |s| {
        assert s[j..j + |pat|][0] == a[j];
      }
    }
    RemoveFirstKeepsPrefix(a, pat + b, pat);
    assert (pat + b)[..|pat|] == pat;
    assert (pat + b)[|pat|..] == b;
  }

  /** A segment that ends in a slash and holds no occurrence of a slash-free pattern is passed over. */
  lemma RemoveFirstSkipsSegment(seg: string, rest: string, pat: string)
    requires |seg| >= 1 && seg[|seg| - 1] == '/' && '/' !in pat
    requires forall i :: !OccursAt(seg, pat, i)
    ensures RemoveFirst(seg + rest, pat) == seg + RemoveFirst(rest, pat)
  {
    var s := seg + rest;
    forall j | 0 <= j < |seg|
      ensures !OccursAt(s, pat, j)
    {
      if j + |pat| <= |seg| {
        assert s[j..j + |pat|] == seg[j..j + |pat|];
        assert !OccursAt(seg, pat, j);
      } else if j + |pat| <= |s| {
        assert s[j..j + |pat|][|seg| - 1 - j] == '/';
      }
    }
    RemoveFirstKeepsPrefix(seg, rest, pat);
  }
}
