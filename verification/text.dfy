/** String operations the page and the server apply to user input and to
    generated names: JavaScript's `trim()` and `split(',')`, Python's
    `sep.join(...)`, and the decimal rendering inside `f"Q{n}"`. */
module Text {

  /** The characters JavaScript's `String.prototype.trim` removes: the
      WhiteSpace and LineTerminator code points of ECMAScript. */
  predicate IsJsSpace(c: char) {
    var n := c as int;
    n == 0x09 || n == 0x0A || n == 0x0B || n == 0x0C || n == 0x0D || n == 0x20 ||
    n == 0xA0 || n == 0x1680 || (0x2000 <= n <= 0x200A) || n == 0x2028 || n == 0x2029 ||
    n == 0x202F || n == 0x205F || n == 0x3000 || n == 0xFEFF
  }

  /** Drops the leading white space: the result is the longest suffix that
      starts with a non-space, and everything cut off was white space. */
  function TrimStart(s: string): (r: string)
    ensures |r| <= |s| && r == s[|s| - |r|..]
    ensures forall i :: 0 <= i < |s| - |r| ==> IsJsSpace(s[i])
    ensures r == [] || !IsJsSpace(r[0])
    decreases |s|
  {
    if s != [] && IsJsSpace(s[0]) then
      var r := TrimStart(s[1..]);
      assert forall i :: 1 <= i < |s| ==> s[1..][i - 1] == s[i];
      r
    else s
  }

  /** Drops the trailing white space: the result is the longest prefix that
      ends with a non-space, and everything cut off was white space. */
  function TrimEnd(s: string): (r: string)
    ensures |r| <= |s| && r == s[..|r|]
    ensures forall i :: |r| <= i < |s| ==> IsJsSpace(s[i])
    ensures r == [] || !IsJsSpace(r[|r| - 1])
    decreases |s|
  {
    if s != [] && IsJsSpace(s[|s| - 1]) then
      var r := TrimEnd(s[..|s| - 1]);
      assert forall i :: 0 <= i < |s| - 1 ==> s[..|s| - 1][i] == s[i];
      r
    else s
  }

  /** How many characters `trim()` removes from the front of `s`. */
  function LeadingSpaces(s: string): nat {
    |s| - |TrimStart(s)|
  }

  /** JavaScript's `s.trim()`: the result neither starts nor ends with
      white space; `TrimSlice` and `TrimCuts` say where it lies in `s`. */
  function Trim(s: string): (r: string)
    ensures |r| <= |s|
    ensures r == [] || (!IsJsSpace(r[0]) && !IsJsSpace(r[|r| - 1]))
  {
    TrimEnd(TrimStart(s))
  }

  /** The result of `trim()` is the slice of `s` that starts after the
      leading white space. */
  lemma TrimSlice(s: string)
    ensures LeadingSpaces(s) + |Trim(s)| <= |s|
    ensures Trim(s) == s[LeadingSpaces(s)..LeadingSpaces(s) + |Trim(s)|]
  {
    SliceOfSuffix(s, TrimStart(s), Trim(s), LeadingSpaces(s));
  }

  /** `trim()` cuts away only white space, on either side of its result. */
  lemma TrimCuts(s: string)
    ensures forall i :: 0 <= i < LeadingSpaces(s) ==> IsJsSpace(s[i])
    ensures forall i :: LeadingSpaces(s) + |Trim(s)| <= i < |s| ==> IsJsSpace(s[i])
  {
    SliceOfSuffix(s, TrimStart(s), Trim(s), LeadingSpaces(s));
  }

  /** A prefix `r` of the suffix `t` of `s` from `n` on is the slice of `s`
      from `n` of the same length, and what follows it in `t` follows it
      in `s`. */
  lemma SliceOfSuffix(s: string, t: string, r: string, n: nat)
    requires n <= |s| && t == s[n..] && |r| <= |t| && r == t[..|r|]
    ensures n + |r| <= |s| && r == s[n..n + |r|]
    ensures forall i :: n + |r| <= i < |s| ==> s[i] == t[i - n]
  {
  }

  /** A string that neither starts nor ends with white space. */
  predicate Trimmed(s: string) {
    s == [] || (!IsJsSpace(s[0]) && !IsJsSpace(s[|s| - 1]))
  }

  /** A string that neither starts nor ends with white space is left
      unchanged by `trim()`, and `trim()` always gives such a string. */
  lemma TrimmedFixed(s: string)
    ensures Trimmed(s) ==> Trim(s) == s
    ensures Trimmed(Trim(s))
  {
  }

  /** Trimming twice is trimming once. */
  lemma TrimIdempotent(s: string)
    ensures Trim(Trim(s)) == Trim(s)
  {
    TrimmedFixed(Trim(s));
  }

  /** A string of white space only (an empty input box, say) trims to `""`. */
  lemma TrimBlank(s: string)
    requires forall i :: 0 <= i < |s| ==> IsJsSpace(s[i])
    ensures Trim(s) == ""
  {
  }

  /** JavaScript's `s.split(sep)` for a one-character separator: one piece
      more than there are separators, and no piece holds the separator. */
  function Split(s: string, sep: char): (parts: seq<string>)
    ensures |parts| == multiset(s)[sep] + 1
    ensures forall i :: 0 <= i < |parts| ==> sep !in parts[i]
    decreases |s|
  {
    if s == [] then [""]
    else
      assert s == [s[0]] + s[1..];
      var rest := Split(s[1..], sep);
      if s[0] == sep then [""] + rest
      else [[s[0]] + rest[0]] + rest[1..]
  }

  /** Python's `sep.join(parts)` (and JavaScript's `parts.join(sep)`). */
  function Join(parts: seq<string>, sep: string): string
    decreases |parts|
  {
    if |parts| == 0 then ""
    else if |parts| == 1 then parts[0]
    else parts[0] + sep + Join(parts[1..], sep)
  }

  /** Joining pieces that neither start nor end with white space, with a
      separator that is not white space, gives such a string again. */
  lemma {:induction false} JoinTrimmed(parts: seq<string>, sep: char)
    requires !IsJsSpace(sep)
    requires forall i :: 0 <= i < |parts| ==> Trimmed(parts[i])
    ensures Trimmed(Join(parts, [sep]))
    decreases |parts|
  {
    if |parts| >= 2 {
      var rest := Join(parts[1..], [sep]);
      JoinTrimmed(parts[1..], sep);
      var j := Join(parts, [sep]);
      assert j == parts[0] + [sep] + rest;
      assert j[0] == if parts[0] != [] then parts[0][0] else sep;
      assert j[|j| - 1] == if rest != [] then rest[|rest| - 1] else sep;
    }
  }

  /** Joining the pieces of a split with the same separator gives the input back. */
  lemma {:induction false} JoinSplit(s: string, sep: char)
    ensures Join(Split(s, sep), [sep]) == s
    decreases |s|
  {
    if s != [] {
      JoinSplit(s[1..], sep);
      JoinSplitStep(s, sep);
    }
  }

  /** One step of `JoinSplit`: if the split of the tail joins back to the
      tail, the split of the whole string joins back to it. */
  lemma JoinSplitStep(s: string, sep: char)
    requires s != [] && Join(Split(s[1..], sep), [sep]) == s[1..]
    ensures Join(Split(s, sep), [sep]) == s
  {
    if s[0] == sep {
      JoinSplitAtSep(s, sep);
    } else {
      JoinSplitAtOther(s, sep);
    }
    HeadTail(s);
  }

  /** A string starting with the separator splits into `""` and the pieces
      of its tail. */
  lemma JoinSplitAtSep(s: string, sep: char)
    requires s != [] && s[0] == sep
    ensures Join(Split(s, sep), [sep]) == [s[0]] + Join(Split(s[1..], sep), [sep])
  {
    var rest := Split(s[1..], sep);
    assert Split(s, sep) == [""] + rest;
    JoinCons("", rest, [sep]);
  }

  /** A string starting with another character has it in front of its
      first piece. */
  lemma JoinSplitAtOther(s: string, sep: char)
    requires s != [] && s[0] != sep
    ensures Join(Split(s, sep), [sep]) == [s[0]] + Join(Split(s[1..], sep), [sep])
  {
    SplitHead(s, sep);
    JoinPrepend(s[0], Split(s[1..], sep), [sep]);
  }

  /** A non-empty string is its first character followed by the rest. */
  lemma HeadTail(s: string)
    requires s != []
    ensures [s[0]] + s[1..] == s
  {
  }

  /** A piece in front of at least one more is followed by the separator. */
  lemma JoinCons(x: string, parts: seq<string>, sep: string)
    requires |parts| >= 1
    ensures Join([x] + parts, sep) == x + sep + Join(parts, sep)
  {
    assert ([x] + parts)[1..] == parts;
  }

  /** A character put in front of the first piece comes first in the join. */
  lemma JoinPrepend(c: char, parts: seq<string>, sep: string)
    requires |parts| >= 1
    ensures Join([[c] + parts[0]] + parts[1..], sep) == [c] + Join(parts, sep)
  {
    if |parts| > 1 {
      JoinCons([c] + parts[0], parts[1..], sep);
      assert [parts[0]] + parts[1..] == parts;
    }
  }

  /** A piece without the separator, followed by the separator, splits off as one piece. */
  lemma {:induction false} SplitCons(a: string, b: string, sep: char)
    requires sep !in a
    ensures Split(a + [sep] + b, sep) == [a] + Split(b, sep)
    decreases |a|
  {
    if a == [] {
      SplitAtSep(b, sep);
    } else {
      SplitCons(a[1..], b, sep);
      SplitConsStep(a, b, sep);
    }
  }

  /** A string starting with the separator splits into `""` and the pieces
      after it. */
  lemma SplitAtSep(b: string, sep: char)
    ensures Split([] + [sep] + b, sep) == [[]] + Split(b, sep)
  {
    var s := [] + [sep] + b;
    assert s[1..] == b;
  }

  /** Step of `SplitCons`: putting a character other than the separator in
      front of the first piece. */
  lemma SplitConsStep(a: string, b: string, sep: char)
    requires a != [] && sep !in a
    requires Split(a[1..] + [sep] + b, sep) == [a[1..]] + Split(b, sep)
    ensures Split(a + [sep] + b, sep) == [a] + Split(b, sep)
  {
    var t := a[1..] + [sep] + b;
    SplitOff(a, sep, b);
    SplitPrepend(a[0], t, sep);
    HeadTail(a);
  }

  /** The first character of a non-empty string comes off the front of
      any extension of it. */
  lemma SplitOff(a: string, c: char, b: string)
    requires a != []
    ensures a + [c] + b == [a[0]] + (a[1..] + [c] + b)
  {
  }

  /** A character other than the separator goes in front of the first piece. */
  lemma SplitPrepend(c: char, t: string, sep: char)
    requires c != sep
    ensures Split([c] + t, sep) == [[c] + Split(t, sep)[0]] + Split(t, sep)[1..]
  {
    assert ([c] + t)[1..] == t;
  }

  /** A string that does not start with the separator puts its first
      character in front of the first piece of the rest. */
  lemma SplitHead(s: string, sep: char)
    requires s != [] && s[0] != sep
    ensures var rest := Split(s[1..], sep);
      Split(s, sep) == [[s[0]] + rest[0]] + rest[1..]
  {
  }

  /** A string without the separator splits into itself alone. */
  lemma {:induction false} SplitNone(a: string, sep: char)
    requires sep !in a
    ensures Split(a, sep) == [a]
    decreases |a|
  {
    if a != [] {
      SplitNone(a[1..], sep);
      assert [a[0]] + a[1..] == a;
    }
  }

  /** Splitting a join gives the pieces back, as long as there is at least one
      piece and none of them holds the separator. */
  lemma {:induction false} SplitJoin(parts: seq<string>, sep: char)
    requires |parts| >= 1
    requires forall i :: 0 <= i < |parts| ==> sep !in parts[i]
    ensures Split(Join(parts, [sep]), sep) == parts
    decreases |parts|
  {
    if |parts| == 1 {
      SplitNone(parts[0], sep);
    } else {
      SplitJoin(parts[1..], sep);
      SplitCons(parts[0], Join(parts[1..], [sep]), sep);
      assert [parts[0]] + parts[1..] == parts;
    }
  }

  /** The decimal digit character for `d`. */
  function DigitChar(d: nat): char
    requires d < 10
  {
    (0x30 + d) as char
  }

  /** The decimal rendering of `n` that Python's `f"{n}"` produces: at least
      one character, and every character a digit. */
  function Decimal(n: nat): (s: string)
    ensures |s| >= 1
    ensures forall i :: 0 <= i < |s| ==> '0' <= s[i] <= '9'
    decreases n
  {
    if n < 10 then [DigitChar(n)] else Decimal(n / 10) + [DigitChar(n % 10)]
  }

  /** Different numbers have different decimal renderings. */
  lemma {:induction false} DecimalInjective(m: nat, n: nat)
    ensures Decimal(m) == Decimal(n) ==> m == n
    decreases m
  {
    if Decimal(m) == Decimal(n) {
      if m < 10 && n < 10 {
        assert Decimal(m)[0] == DigitChar(m);
      } else if m >= 10 && n >= 10 {
        var dm, dn := Decimal(m), Decimal(n);
        assert dm[|dm| - 1] == DigitChar(m % 10);
        assert dn[|dn| - 1] == DigitChar(n % 10);
        assert dm[..|dm| - 1] == Decimal(m / 10);
        assert dn[..|dn| - 1] == Decimal(n / 10);
        DecimalInjective(m / 10, n / 10);
      }
    }
  }
}
