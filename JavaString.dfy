// The parts of java.lang.String (and of the project's StringUtil.split, whose
// source is not part of this model) that the signing code relies on.
module JavaString {
  import opened Wrappers

  /** The Java exceptions the modelled code can raise. */
  datatype Exception =
    | StringIndexOutOfBounds   // String.substring with bounds outside the string
    | ArrayIndexOutOfBounds    // reading past the end of an array
    | ClassCast                // a cast to a class the object does not belong to
    | IOError(message: string) // java.io.IOException, raised by the network layer
    | Thrown(message: string)  // any other exception, by its message

  /** String.startsWith. */
  predicate StartsWith(s: string, prefix: string) {
    |prefix| <= |s| && s[..|prefix|] == prefix
  }

  /** String.indexOf(char): the first index of c, or -1. */
  function IndexOf(s: string, c: char): (r: int)
    ensures -1 <= r < |s|
    ensures r >= 0 ==> s[r] == c && c !in s[..r]
    ensures r < 0 <==> c !in s
  {
    if s == [] then -1
    else if s[0] == c then 0
    else
      var k := IndexOf(s[1..], c);
      assert s == [s[0]] + s[1..];
      if k < 0 then -1
      else
        assert s[..k + 1] == [s[0]] + s[1..][..k];
        k + 1
  }

  /** String.indexOf(char, fromIndex): a negative start counts as 0. */
  function IndexOfFrom(s: string, c: char, from: int): (r: int)
    ensures r == -1 || (0 <= r < |s| && from <= r)
    ensures r >= 0 ==> s[r] == c && forall k :: from <= k < r && 0 <= k ==> s[k] != c
    ensures r < 0 ==> forall k :: from <= k < |s| && 0 <= k ==> s[k] != c
  {
    var start := if from < 0 then 0 else from;
    if start >= |s| then -1
    else
      var k := IndexOf(s[start..], c);
      assert forall j :: start <= j < |s| ==> s[j] == s[start..][j - start];
      if k < 0 then -1 else start + k
  }

  /** String.indexOf(String): the first index at which t occurs in s, or -1. */
  function IndexOfString(s: string, t: string): (r: int)
    ensures -1 <= r <= |s|
    ensures r >= 0 ==> StartsWith(s[r..], t)
    decreases |s|
  {
    if StartsWith(s, t) then 0
    else if s == [] then -1
    else
      var k := IndexOfString(s[1..], t);
      assert k >= 0 ==> s[k + 1..] == s[1..][k..];
      if k < 0 then -1 else k + 1
  }

  /** IndexOfString finds the first occurrence, and -1 only when there is none. */
  lemma {:induction false} IndexOfStringFirst(s: string, t: string)
    ensures IndexOfString(s, t) >= 0 ==> forall k :: 0 <= k < IndexOfString(s, t) ==> !StartsWith(s[k..], t)
    ensures IndexOfString(s, t) < 0 ==> forall k :: 0 <= k <= |s| ==> !StartsWith(s[k..], t)
    decreases |s|
  {
    if !StartsWith(s, t) && s != [] {
      IndexOfStringFirst(s[1..], t);
      assert forall j :: 1 <= j <= |s| ==> s[j..] == s[1..][j - 1..];
    }
  }

  /** String.substring(begin, end), which throws unless 0 <= begin <= end <= length. */
  function Substring(s: string, begin: int, end: int): (r: Result<string, Exception>)
    ensures r.Ok? <==> 0 <= begin <= end <= |s|
  {
    if 0 <= begin <= end <= |s| then Ok(s[begin..end]) else Err(StringIndexOutOfBounds)
  }

  /** String.compareTo: the first differing character decides, else the length. */
  function CompareTo(x: string, y: string): int {
    if x == [] || y == [] then |x| - |y|
    else if x[0] != y[0] then x[0] as int - y[0] as int
    else CompareTo(x[1..], y[1..])
  }

  /** x sorts strictly before y, as `x.compareTo(y) < 0`. */
  predicate Less(x: string, y: string) {
    CompareTo(x, y) < 0
  }

  lemma {:induction false} CompareToAntisymmetric(x: string, y: string)
    ensures CompareTo(x, y) == -CompareTo(y, x)
  {
    if x != [] && y != [] && x[0] == y[0] {
      CompareToAntisymmetric(x[1..], y[1..]);
    }
  }

  lemma {:induction false} CompareToZero(x: string, y: string)
    ensures CompareTo(x, y) == 0 <==> x == y
  {
    if x != [] && y != [] && x[0] == y[0] {
      CompareToZero(x[1..], y[1..]);
      assert x == [x[0]] + x[1..] && y == [y[0]] + y[1..];
    }
  }

  /** The order on names is strict and total, so a sort by it is well defined. */
  lemma LessIrreflexive(x: string)
    ensures !Less(x, x)
  {
    CompareToZero(x, x);
  }

  lemma LessTotal(x: string, y: string)
    ensures x == y || Less(x, y) || Less(y, x)
  {
    CompareToZero(x, y);
    CompareToAntisymmetric(x, y);
  }

  lemma LessAsymmetric(x: string, y: string)
    requires Less(x, y)
    ensures !Less(y, x)
  {
    CompareToAntisymmetric(x, y);
  }

  lemma {:induction false} LessTransitive(x: string, y: string, z: string)
    requires Less(x, y) && Less(y, z)
    ensures Less(x, z)
  {
    if x != [] && y != [] && z != [] && x[0] == y[0] && y[0] == z[0] {
      LessTransitive(x[1..], y[1..], z[1..]);
    }
  }

  /** StringUtil.split(s, sep) for a one-character separator, taken to keep
      empty pieces: the pieces between consecutive separators, in order. */
  function Split(s: string, sep: char): (r: seq<string>)
    ensures |r| >= 1
    decreases |s|
  {
    var i := IndexOf(s, sep);
    if i < 0 then [s] else [s[..i]] + Split(s[i + 1..], sep)
  }

  /** A leading piece free of the separator splits off on its own. */
  lemma SplitCons(a: string, sep: char, rest: string)
    requires sep !in a
    ensures Split(a + [sep] + rest, sep) == [a] + Split(rest, sep)
  {
    var s := a + [sep] + rest;
    assert s[|a|] == sep && s[..|a|] == a;
    assert IndexOf(s, sep) == |a|;
    assert s[|a| + 1..] == rest;
  }

  lemma SplitThree(a: string, b: string, c: string, sep: char)
    requires sep !in a && sep !in b && sep !in c
    ensures Split(a + [sep] + b + [sep] + c, sep) == [a, b, c]
  {
    assert Split(c, sep) == [c];
    SplitCons(b, sep, c);
    assert a + [sep] + b + [sep] + c == a + [sep] + (b + [sep] + c);
    SplitCons(a, sep, b + [sep] + c);
  }

  /** The pieces joined with sep between consecutive ones. */
  function Join(pieces: seq<string>, sep: char): string {
    if |pieces| == 0 then ""
    else if |pieces| == 1 then pieces[0]
    else Join(pieces[..|pieces| - 1], sep) + [sep] + pieces[|pieces| - 1]
  }

  lemma {:induction false} JoinCons(x: string, rest: seq<string>, sep: char)
    requires rest != []
    ensures Join([x] + rest, sep) == x + [sep] + Join(rest, sep)
    decreases |rest|
  {
    var all := [x] + rest;
    if |rest| > 1 {
      assert all[..|all| - 1] == [x] + rest[..|rest| - 1];
      JoinCons(x, rest[..|rest| - 1], sep);
    }
  }

  /** No piece of a split holds the separator, and joining the pieces gives back the string. */
  lemma {:induction false} SplitJoin(s: string, sep: char)
    ensures Join(Split(s, sep), sep) == s
    ensures forall p :: p in Split(s, sep) ==> sep !in p
    decreases |s|
  {
    var i := IndexOf(s, sep);
    if i >= 0 {
      SplitJoin(s[i + 1..], sep);
      JoinCons(s[..i], Split(s[i + 1..], sep), sep);
      assert s == s[..i] + [sep] + s[i + 1..];
    }
  }

  /** Splitting a join of separator-free pieces gives the pieces back. */
  lemma {:induction false} JoinSplit(pieces: seq<string>, sep: char)
    requires |pieces| >= 1
    requires forall p :: p in pieces ==> sep !in p
    ensures Split(Join(pieces, sep), sep) == pieces
    decreases |pieces|
  {
    if |pieces| > 1 {
      var rest := pieces[1..];
      assert pieces == [pieces[0]] + rest;
      JoinCons(pieces[0], rest, sep);
      var s := Join(pieces, sep);
      assert s[..|pieces[0]|] == pieces[0];
      assert s[|pieces[0]|] == sep;
      assert IndexOf(s, sep) == |pieces[0]| by {
        assert sep !in s[..|pieces[0]|];
      }
      assert s[|pieces[0]| + 1..] == Join(rest, sep);
      JoinSplit(rest, sep);
    }
  }

  function DecimalDigit(d: nat): (c: char)
    requires d < 10
    ensures '0' <= c <= '9' && c as int - '0' as int == d
  {
    (d + '0' as int) as char
  }

  /** The decimal rendering Java gives a non-negative int. */
  function NatToString(n: nat): (r: string)
    ensures |r| >= 1
  {
    if n < 10 then [DecimalDigit(n)] else NatToString(n / 10) + [DecimalDigit(n % 10)]
  }

  /** The decimal rendering Java gives any int, with a leading '-' when negative. */
  function IntToString(n: int): (r: string)
    ensures |r| >= 1
  {
    if n < 0 then "-" + NatToString(-n) else NatToString(n)
  }

  /** Java's int division, which truncates toward zero. */
  function Div(a: int, b: int): int
    requires b != 0
  {
    var q := (if a < 0 then -a else a) / (if b < 0 then -b else b);
    if (a < 0) == (b < 0) then q else -q
  }

  /** Halving truncates by at most one half: twice the half is within one of
      the number, below it for positive numbers and above it for negative ones. */
  lemma DivByTwo(a: int)
    ensures a >= 0 ==> a - 1 <= 2 * Div(a, 2) <= a
    ensures a < 0 ==> a <= 2 * Div(a, 2) <= a + 1
  {
  }

  predicate AllDigits(s: string) {
    forall k :: 0 <= k < |s| ==> '0' <= s[k] <= '9'
  }

  /** The number a string of decimal digits denotes. */
  function DecimalValue(s: string): nat
    requires AllDigits(s)
  {
    if s == [] then 0 else DecimalValue(s[..|s| - 1]) * 10 + (s[|s| - 1] as int - '0' as int)
  }

  /** The rendering is digits only, has no leading zero, and reads back as n. */
  lemma {:induction false} NatToStringRoundTrip(n: nat)
    ensures AllDigits(NatToString(n))
    ensures DecimalValue(NatToString(n)) == n
    ensures |NatToString(n)| > 1 ==> NatToString(n)[0] != '0'
  {
    if n >= 10 {
      NatToStringRoundTrip(n / 10);
      var r := NatToString(n);
      assert r[..|r| - 1] == NatToString(n / 10);
    }
  }
}
