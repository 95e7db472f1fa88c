/**
 * The JavaScript string operations the CLI library relies on, over `seq<char>`:
 * ASCII `toLowerCase`, `trim`, `split`, `join`, and decimal integer literals.
 */
module Strings {

  // ---------------------------------------------------------------- lower case

  /** `toLowerCase` restricted to ASCII: `A`..`Z` become `a`..`z`, all else is kept. */
  function LowerChar(c: char): char {
    if 'A' <= c <= 'Z' then (c as int + 32) as char else c
  }

  function Lower(s: string): string {
    seq(|s|, i requires 0 <= i < |s| => LowerChar(s[i]))
  }

  /** A string that lower-casing leaves unchanged. */
  predicate IsLower(s: string) {
    forall i :: 0 <= i < |s| ==> !('A' <= s[i] <= 'Z')
  }

  lemma LowerIsLower(s: string)
    ensures |Lower(s)| == |s| && IsLower(Lower(s))
  {
  }

  lemma IsLowerFixesLower(s: string)
    ensures IsLower(s) <==> Lower(s) == s
  {
    if IsLower(s) {
      assert forall i :: 0 <= i < |s| ==> Lower(s)[i] == s[i];
    } else {
      var i :| 0 <= i < |s| && 'A' <= s[i] <= 'Z';
      assert Lower(s)[i] != s[i];
    }
  }

  lemma LowerIdempotent(s: string)
    ensures Lower(Lower(s)) == Lower(s)
  {
    LowerIsLower(s);
    IsLowerFixesLower(Lower(s));
  }

  lemma LowerAppend(a: string, b: string)
    ensures Lower(a + b) == Lower(a) + Lower(b)
  {
    assert forall i :: 0 <= i < |a + b| ==> Lower(a + b)[i] == (Lower(a) + Lower(b))[i];
  }

  /** Lower-casing keeps a space a space and makes nothing else one. */
  lemma LowerKeepsSpaces(s: string)
    ensures ' ' in Lower(s) <==> ' ' in s
  {
    if ' ' in s {
      var i :| 0 <= i < |s| && s[i] == ' ';
      assert Lower(s)[i] == ' ';
    }
  }

  // --------------------------------------------------------------------- trim

  /**
   * The characters `trim` removes: ECMAScript WhiteSpace (tab, vertical tab,
   * form feed, space, no-break space, byte order mark, the Zs category) and
   * LineTerminator (line feed, carriage return, line and paragraph separator).
   */
  predicate IsJsWhitespace(c: char) {
    var n := c as int;
    n == 0x09 || n == 0x0A || n == 0x0B || n == 0x0C || n == 0x0D || n == 0x20 ||
    n == 0xA0 || n == 0x1680 || (0x2000 <= n <= 0x200A) || n == 0x2028 || n == 0x2029 ||
    n == 0x202F || n == 0x205F || n == 0x3000 || n == 0xFEFF
  }

  /** Drops the leading whitespace: the result is a suffix that starts with non-whitespace. */
  function TrimStart(s: string): (r: string)
    ensures |r| <= |s| && r == s[|s| - |r|..]
    ensures forall k :: 0 <= k < |s| - |r| ==> IsJsWhitespace(s[k])
    ensures r != [] ==> !IsJsWhitespace(r[0])
    decreases |s|
  {
    if s != [] && IsJsWhitespace(s[0]) then TrimStart(s[1..]) else s
  }

  /** Drops the trailing whitespace: the result is a prefix that ends with non-whitespace. */
  function TrimEnd(s: string): (r: string)
    ensures |r| <= |s| && r == s[..|r|]
    ensures forall k :: |r| <= k < |s| ==> IsJsWhitespace(s[k])
    ensures r != [] ==> !IsJsWhitespace(r[|r| - 1])
    decreases |s|
  {
    if s != [] && IsJsWhitespace(s[|s| - 1]) then TrimEnd(s[..|s| - 1]) else s
  }

  /** `trim`: a slice of the input with only whitespace cut away on either side. */
  function Trim(s: string): (r: string)
    ensures r != [] ==> !IsJsWhitespace(r[0]) && !IsJsWhitespace(r[|r| - 1])
  {
    TrimEnd(TrimStart(s))
  }

  /** `r` is the slice `s[i..j]`, and everything of `s` outside it is whitespace. */
  predicate TrimmedFrom(s: string, r: string, i: nat, j: nat) {
    && i <= j <= |s| && r == s[i..j]
    && (forall k :: 0 <= k < i ==> IsJsWhitespace(s[k]))
    && (forall k :: j <= k < |s| ==> IsJsWhitespace(s[k]))
  }

  /** `trim` keeps a slice of the input and cuts away only whitespace on either side. */
  lemma TrimIsSlice(s: string)
    ensures exists i, j :: TrimmedFrom(s, Trim(s), i, j)
  {
    var t := TrimStart(s);
    var r := TrimEnd(t);
    var i := |s| - |t|;
    SliceOfSuffix(s, i, |r|);
    TrailingWhitespace(s, t, |r|);
    assert TrimmedFrom(s, Trim(s), i, i + |r|);
  }

  lemma SliceOfSuffix(s: string, i: nat, n: nat)
    requires i + n <= |s|
    ensures s[i..][..n] == s[i..i + n]
  {
  }

  /** Whitespace at the end of a suffix of `s` is whitespace at the end of `s`. */
  lemma TrailingWhitespace(s: string, t: string, m: nat)
    requires |t| <= |s| && t == s[|s| - |t|..] && m <= |t|
    requires forall k :: m <= k < |t| ==> IsJsWhitespace(t[k])
    ensures forall k :: |s| - |t| + m <= k < |s| ==> IsJsWhitespace(s[k])
  {
    var i := |s| - |t|;
    forall k | i + m <= k < |s| ensures IsJsWhitespace(s[k]) {
      assert s[k] == t[k - i];
    }
  }

  /** A string with no whitespace at either end is its own trim. */
  lemma TrimUnpadded(s: string)
    requires s != [] ==> !IsJsWhitespace(s[0]) && !IsJsWhitespace(s[|s| - 1])
    ensures Trim(s) == s
  {
  }

  // ------------------------------------------------------------- join / split

  /** `Array.prototype.join(d)`. */
  function Join(parts: seq<string>, d: string): string
    decreases |parts|
  {
    if |parts| == 0 then ""
    else if |parts| == 1 then parts[0]
    else parts[0] + d + Join(parts[1..], d)
  }

  lemma {:induction false} JoinAppend(parts: seq<string>, p: string, d: string)
    requires parts != []
    ensures Join(parts + [p], d) == Join(parts, d) + d + p
    decreases |parts|
  {
    if |parts| == 1 {
      assert parts + [p] == [parts[0], p];
    } else {
      assert (parts + [p])[1..] == parts[1..] + [p];
      JoinAppend(parts[1..], p, d);
    }
  }

  /** Lower-casing a join lower-cases every part and the delimiter. */
  lemma {:induction false} LowerJoin(parts: seq<string>, d: string)
    ensures Lower(Join(parts, d)) ==
      Join(seq(|parts|, i requires 0 <= i < |parts| => Lower(parts[i])), Lower(d))
    decreases |parts|
  {
    var lowered := seq(|parts|, i requires 0 <= i < |parts| => Lower(parts[i]));
    if |parts| > 1 {
      LowerJoin(parts[1..], d);
      assert lowered[1..] == seq(|parts[1..]|, i requires 0 <= i < |parts[1..]| => Lower(parts[1..][i]));
      LowerAppend(parts[0] + d, Join(parts[1..], d));
      LowerAppend(parts[0], d);
    }
  }

  lemma {:induction false} JoinSplice(a: seq<string>, b: seq<string>, d: string)
    requires a != [] && b != []
    ensures Join(a + b, d) == Join(a, d) + d + Join(b, d)
    decreases |a|
  {
    if |a| == 1 {
      assert (a + b)[1..] == b;
    } else {
      assert (a + b)[1..] == a[1..] + b;
      JoinSplice(a[1..], b, d);
    }
  }

  /**
   * `String.prototype.split(d)`. With a non-empty delimiter the string is cut at
   * every leftmost, non-overlapping occurrence of `d`; with the empty delimiter
   * it is cut into single characters (and the empty string into no pieces).
   */
  function Split(s: string, d: string): (r: seq<string>)
    ensures d != "" ==> |r| >= 1
    decreases |s|
  {
    if d == "" then seq(|s|, i requires 0 <= i < |s| => [s[i]])
    else if |s| < |d| then [s]
    else if s[..|d|] == d then [""] + Split(s[|d|..], d)
    else
      var rest := Split(s[1..], d);
      [[s[0]] + rest[0]] + rest[1..]
  }

  /** Joining the pieces of a split with the same delimiter gives back the string. */
  lemma {:induction false} JoinSplit(s: string, d: string)
    ensures Join(Split(s, d), d) == s
    decreases |s|
  {
    if d == "" {
      JoinSplitChars(s);
    } else if |s| < |d| {
    } else if s[..|d|] == d {
      JoinSplit(s[|d|..], d);
      JoinSplitAtDelimiter(s, d);
    } else {
      JoinSplit(s[1..], d);
      JoinSplitPastChar(s, d);
    }
  }

  lemma {:induction false} JoinSplitChars(s: string)
    ensures Join(Split(s, ""), "") == s
    decreases |s|
  {
    if s != [] {
      JoinSplitChars(s[1..]);
      assert Split(s, "") == [[s[0]]] + Split(s[1..], "");
      if |s| == 1 {
        assert [s[0]] == s;
        assert Split(s, "") == [s];
      } else {
        assert s == [s[0]] + s[1..];
      }
    }
  }

  lemma HeadTail(s: string)
    requires s != []
    ensures [s[0]] + s[1..] == s
  {
  }

  lemma PrefixTail(s: string, n: nat)
    requires n <= |s|
    ensures s[..n] + s[n..] == s
  {
  }

  /** At the delimiter, the split starts an empty piece and goes on after it. */
  lemma SplitAtDelimiter(s: string, d: string)
    requires d != "" && |d| <= |s| && s[..|d|] == d
    ensures Split(s, d) == [""] + Split(s[|d|..], d)
  {
  }

  /** An empty first part puts one delimiter in front of the join. */
  lemma JoinConsEmpty(parts: seq<string>, d: string)
    requires parts != []
    ensures Join([""] + parts, d) == d + Join(parts, d)
  {
    assert ([""] + parts)[1..] == parts;
  }

  /** The step of `JoinSplit` when the string starts with the delimiter. */
  lemma JoinSplitAtDelimiter(s: string, d: string)
    requires d != "" && |d| <= |s| && s[..|d|] == d
    requires Join(Split(s[|d|..], d), d) == s[|d|..]
    ensures Join(Split(s, d), d) == s
  {
    SplitAtDelimiter(s, d);
    JoinConsEmpty(Split(s[|d|..], d), d);
    PrefixTail(s, |d|);
  }

  /** Putting a character in front of the first part puts it in front of the join. */
  lemma JoinConsHead(x: char, parts: seq<string>, d: string)
    requires parts != []
    ensures Join([[x] + parts[0]] + parts[1..], d) == [x] + Join(parts, d)
  {
    var r := [[x] + parts[0]] + parts[1..];
    if |parts| > 1 {
      assert r[1..] == parts[1..];
      assert [x] + parts[0] + d + Join(parts[1..], d) == [x] + (parts[0] + d + Join(parts[1..], d));
    }
  }

  /** Past a character that does not begin the delimiter, the split glues it to the first piece. */
  lemma SplitPastChar(s: string, d: string)
    requires d != "" && |d| <= |s| && s[..|d|] != d
    ensures var rest := Split(s[1..], d);
            Split(s, d) == [[s[0]] + rest[0]] + rest[1..]
  {
  }

  /** The step of `JoinSplit` when the string does not start with the delimiter. */
  lemma JoinSplitPastChar(s: string, d: string)
    requires d != "" && |d| <= |s| && s[..|d|] != d
    requires Join(Split(s[1..], d), d) == s[1..]
    ensures Join(Split(s, d), d) == s
  {
    SplitPastChar(s, d);
    JoinConsHead(s[0], Split(s[1..], d), d);
    HeadTail(s);
  }

  /** The pieces of a split on a single character never contain that character. */
  lemma {:induction false} SplitPiecesAvoidChar(s: string, c: char)
    ensures forall p :: p in Split(s, [c]) ==> c !in p
    decreases |s|
  {
    if |s| < 1 {
    } else if s[..1] == [c] {
      SplitPiecesAvoidChar(s[1..], c);
    } else {
      SplitPiecesAvoidChar(s[1..], c);
      var rest := Split(s[1..], [c]);
      assert s[0] != c by { assert s[..1] == [s[0]]; }
      assert Split(s, [c]) == [[s[0]] + rest[0]] + rest[1..];
      assert rest[0] in rest;
      forall p | p in rest[1..] ensures c !in p {
        var k :| 0 <= k < |rest[1..]| && rest[1..][k] == p;
        assert rest[k + 1] in rest;
      }
    }
  }

  /** A piece free of the delimiter character comes out of a split whole. */
  lemma {:induction false} SplitCharFree(p: string, c: char)
    requires c !in p
    ensures Split(p, [c]) == [p]
    decreases |p|
  {
    if |p| >= 1 {
      assert p[..1] != [c] by { assert p[..1] == [p[0]]; }
      SplitCharFree(p[1..], c);
      assert [p[0]] + p[1..] == p;
    }
  }

  /** A split on `c` stops at the first `c`: the text before it is the first piece. */
  lemma {:induction false} SplitAtFirstChar(p: string, c: char, rest: string)
    requires c !in p
    ensures Split(p + [c] + rest, [c]) == [p] + Split(rest, [c])
    decreases |p|
  {
    var s := p + [c] + rest;
    if p == [] {
      assert s[..1] == [c];
      assert s[1..] == rest;
    } else {
      assert s[..1] != [c] by { assert s[..1] == [p[0]]; }
      assert s[1..] == p[1..] + [c] + rest;
      SplitAtFirstChar(p[1..], c, rest);
      assert [p[0]] + p[1..] == p;
    }
  }

  /** Splitting a join on one character gives back the parts, if none holds that character. */
  lemma {:induction false} SplitJoinOnChar(parts: seq<string>, c: char)
    requires parts != []
    requires forall i :: 0 <= i < |parts| ==> c !in parts[i]
    ensures Split(Join(parts, [c]), [c]) == parts
    decreases |parts|
  {
    if |parts| == 1 {
      SplitCharFree(parts[0], c);
    } else {
      SplitJoinOnChar(parts[1..], c);
      SplitAtFirstChar(parts[0], c, Join(parts[1..], [c]));
      assert [parts[0]] + parts[1..] == parts;
    }
  }

  /** Flattening of a list of strings (`parts.join("")`). */
  function Concat(parts: seq<string>): string
    decreases |parts|
  {
    if parts == [] then "" else parts[0] + Concat(parts[1..])
  }

  /** The string with every occurrence of `c` taken out. */
  function Without(s: string, c: char): string
    decreases |s|
  {
    if s == [] then "" else (if s[0] == c then "" else [s[0]]) + Without(s[1..], c)
  }

  /** The pieces of a split on one character are the string with that character taken out. */
  lemma {:induction false} ConcatSplitOnChar(s: string, c: char)
    ensures Concat(Split(s, [c])) == Without(s, c)
    decreases |s|
  {
    if |s| < 1 {
    } else if s[..1] == [c] {
      ConcatSplitOnChar(s[1..], c);
      assert s[0] == c;
      assert Split(s, [c]) == [""] + Split(s[1..], [c]);
    } else {
      ConcatSplitOnChar(s[1..], c);
      assert s[0] != c by { assert s[..1] == [s[0]]; }
      var rest := Split(s[1..], [c]);
      var r := [[s[0]] + rest[0]] + rest[1..];
      assert Split(s, [c]) == r;
      assert r[1..] == rest[1..];
      assert Concat(rest) == rest[0] + Concat(rest[1..]);
    }
  }

  // ---------------------------------------------------- decimal integer text

  predicate IsDigit(c: char) {
    '0' <= c <= '9'
  }

  lemma DigitIsNotWhitespace(c: char)
    requires IsDigit(c)
    ensures !IsJsWhitespace(c)
  {
  }

  predicate AllDigits(s: string) {
    forall i :: 0 <= i < |s| ==> IsDigit(s[i])
  }

  /** The value of a string of decimal digits, most significant first. */
  function DigitsValue(s: string): (n: nat)
    requires AllDigits(s)
    decreases |s|
  {
    if s == [] then 0 else 10 * DigitsValue(s[..|s| - 1]) + (s[|s| - 1] as int - '0' as int)
  }

  /** The decimal rendering of a natural number, without leading zeros. */
  function NatToString(n: nat): (s: string)
    ensures s != [] && AllDigits(s)
    ensures |s| > 1 ==> s[0] != '0'
    decreases n
  {
    if n < 10 then [('0' as int + n) as char]
    else NatToString(n / 10) + [('0' as int + n % 10) as char]
  }

  /** An integer as JavaScript's `String(n)` renders it. */
  function IntToString(n: int): string {
    if n < 0 then "-" + NatToString(-n) else NatToString(n)
  }

  /** Reading back a rendered natural number gives the number. */
  lemma {:induction false} DigitsValueOfNatToString(n: nat)
    ensures DigitsValue(NatToString(n)) == n
    decreases n
  {
    if n >= 10 {
      DigitsValueOfNatToString(n / 10);
      var s := NatToString(n);
      assert s[..|s| - 1] == NatToString(n / 10);
    }
  }
}
