/** The helpers of lib/utils.js: zero padding, exact integer range checks,
    string replacement and the ordered-set operations. */
module Utils {
  import opened Results
  import opened Text
  import opened Js

  function Max(a: int, b: int): int {
    if a < b then b else a
  }

  /** `digits - |s|` zeros followed by `s` (`new Array(zeros + 1).join('0') + s`). */
  function PadLeft(s: string, digits: int): (r: string)
    ensures |r| == Max(|s|, digits)
    ensures r[|r| - |s|..] == s
    ensures forall i :: 0 <= i < |r| - |s| ==> r[i] == '0'
  {
    var zeros := digits - |s|;
    if zeros > 0 then Zeros(zeros) + s else s
  }

  function Zeros(n: nat): (z: string)
    ensures |z| == n && forall i :: 0 <= i < n ==> z[i] == '0'
  {
    if n == 0 then "" else "0" + Zeros(n - 1)
  }

  /** Text already `digits` long or longer is returned unchanged. */
  lemma PadLeftLong(s: string, digits: int)
    requires |s| >= digits
    ensures PadLeft(s, digits) == s
  {
  }

  /** `extendDigits(num, digits)`: numbers are padded through their decimal text,
      strings directly, and anything else throws. A number with a fractional part
      is outside the model (its JavaScript text is not modelled). */
  function ExtendDigits(num: JsValue, digits: int): (r: Result<string, JsError>)
    requires !num.JFraction?
    ensures r.Success? <==> num.JNum? || num.JStr?
    ensures num.JNum? ==> r == Success(PadLeft(IntText(num.n), digits))
    ensures num.JStr? ==> r == Success(PadLeft(num.s, digits))
    ensures r.Failure? ==> r.error == NotStringOrNumber
  {
    var text := if num.JNum? then JStr(IntText(num.n)) else num;
    if text.JStr? then Success(PadLeft(text.s, digits)) else Failure(NotStringOrNumber)
  }

  /** Padding a number below 100 to two places gives its two decimal digits. */
  lemma ExtendTwo(n: int)
    requires 0 <= n < 100
    ensures ExtendDigits(JNum(n), 2) == Success(Two(n))
  {
    var text := IntText(n);
    assert text == NatText(n);
    if n >= 10 {
      assert text == NatText(n / 10) + [DigitChar(n % 10)];
      assert NatText(n / 10) == [DigitChar(n / 10)];
      assert text == Two(n);
      assert PadLeft(text, 2) == text;
    } else {
      assert n / 10 == 0 && n % 10 == n;
      assert text == [DigitChar(n)];
      assert Zeros(1) == [DigitChar(0)];
      assert PadLeft(text, 2) == [DigitChar(0)] + text;
      assert PadLeft(text, 2) == Two(n);
    }
  }

  /** Padding a number below 1000 to three places gives its three decimal digits. */
  lemma ExtendThree(n: int)
    requires 0 <= n < 1000
    ensures ExtendDigits(JNum(n), 3) == Success(Three(n))
  {
    var text := IntText(n);
    assert text == NatText(n);
    if n >= 100 {
      assert n / 10 / 10 == n / 100;
      assert NatText(n / 100) == [DigitChar(n / 100)];
      assert NatText(n / 10) == NatText(n / 100) + [DigitChar(n / 10 % 10)];
      assert text == NatText(n / 10) + [DigitChar(n % 10)];
      assert text == Three(n);
      assert PadLeft(text, 3) == text;
    } else if n >= 10 {
      assert n / 100 == 0 && n / 10 % 10 == n / 10 && n / 10 < 10;
      assert text == NatText(n / 10) + [DigitChar(n % 10)];
      assert NatText(n / 10) == [DigitChar(n / 10)];
      assert Zeros(1) == [DigitChar(0)];
      assert PadLeft(text, 3) == [DigitChar(0)] + text;
      assert PadLeft(text, 3) == Three(n);
    } else {
      assert n / 100 == 0 && n / 10 % 10 == 0 && n % 10 == n;
      assert text == [DigitChar(n)];
      assert Zeros(2) == [DigitChar(0), DigitChar(0)];
      assert PadLeft(text, 3) == [DigitChar(0), DigitChar(0)] + text;
      assert PadLeft(text, 3) == Three(n);
    }
  }

  predicate IsIntegral(x: real) {
    x == x.Floor as real
  }

  /** `new Decimal(v)` for the arguments the library passes: numbers exactly,
      strings in the `[-]digits` grammar; anything else makes decimal.js throw. */
  function ToDecimal(v: JsValue): Option<real> {
    match v
    case JNum(n) => Some(n as real)
    case JFraction(x) => Some(x)
    case JStr(s) => (match ParseInt(s) case Some(i) => Some(i as real) case None => None)
    case _ => None
  }

  /** The integer a value denotes, if it is an integral number or a decimal integer string. */
  function IntegerValue(v: JsValue): Option<int> {
    match v
    case JNum(n) => Some(n)
    case JStr(s) => ParseInt(s)
    case _ => None
  }

  /** `validateInteger(val, min, max, className)`: the bounds are read as decimals
      first, then `val` must be a number or string, an integer, and lie within the
      bounds inclusive, all compared exactly. */
  function ValidateInteger(val: JsValue, min: JsValue, max: JsValue, className: string): (r: Outcome<JsError>)
    ensures r.Pass? <==>
              && ToDecimal(min).Some? && ToDecimal(max).Some?
              && IntegerValue(val).Some?
              && ToDecimal(min).value <= IntegerValue(val).value as real <= ToDecimal(max).value
    ensures Typeof(val) != "number" && Typeof(val) != "string" ==> r.Fail?
  {
    var lo := ToDecimal(min);
    var hi := ToDecimal(max);
    if lo.None? || hi.None? then Fail(InvalidDecimal)
    else if Typeof(val) != "number" && Typeof(val) != "string" then Fail(NotIntegerValue(className))
    else
      var x := ToDecimal(val);
      IntegerValueDecimal(val);
      if x.None? then Fail(InvalidDecimal)
      else if !IsIntegral(x.value) then Fail(NotIntegerValue(className))
      else if x.value < lo.value || x.value > hi.value then Fail(OutOfRange(className, lo.value, hi.value))
      else Pass
  }

  /** A number or string denotes an integer exactly when decimal.js reads it as an integral decimal. */
  lemma IntegerValueDecimal(v: JsValue)
    requires Typeof(v) == "number" || Typeof(v) == "string"
    ensures IntegerValue(v).Some? <==> ToDecimal(v).Some? && IsIntegral(ToDecimal(v).value)
    ensures IntegerValue(v).Some? ==> ToDecimal(v).value == IntegerValue(v).value as real
  {
    match v
    case JNum(n) =>
      assert (n as real).Floor == n;
    case JFraction(x) =>
    case JStr(s) =>
      if ParseInt(s).Some? {
        var i := ParseInt(s).value;
        assert (i as real).Floor == i;
      }
  }

  /** Integral number bounds: an integer `n` passes exactly when `lo <= n <= hi`. */
  lemma ValidateIntegerNumber(n: int, lo: int, hi: int, className: string)
    ensures ValidateInteger(JNum(n), JNum(lo), JNum(hi), className).Pass? <==> lo <= n <= hi
  {
  }

  // ----- replaceAll ---------------------------------------------------------

  /** `Array#join(sep)`. */
  function Join(parts: seq<string>, sep: string): string
    decreases |parts|
  {
    if |parts| == 0 then ""
    else if |parts| == 1 then parts[0]
    else parts[0] + sep + Join(parts[1..], sep)
  }

  /** `String#split(sep)` with a string separator: the empty separator splits into
      single characters, any other one at its leftmost non-overlapping occurrences. */
  function Split(t: string, sep: string): (parts: seq<string>)
    ensures |sep| > 0 ==> |parts| >= 1
    ensures |sep| == 0 ==> |parts| == |t|
    decreases |t|
  {
    if |sep| == 0 then seq(|t|, i requires 0 <= i < |t| => [t[i]])
    else if |t| < |sep| then [t]
    else if t[..|sep|] == sep then [""] + Split(t[|sep|..], sep)
    else
      var rest := Split(t[1..], sep);
      [[t[0]] + rest[0]] + rest[1..]
  }

  /** `replaceAll(target, search, replacement)`: split, then join. */
  function ReplaceAll(target: string, search: string, replacement: string): string {
    Join(Split(target, search), replacement)
  }

  predicate OccursAt(t: string, s: string, i: int) {
    0 <= i && i + |s| <= |t| && t[i..i + |s|] == s
  }

  ghost predicate Occurs(t: string, s: string) {
    exists i :: OccursAt(t, s, i)
  }

  /** Joining the pieces with the separator they were split at restores the text. */
  lemma {:induction false} JoinSplit(t: string, sep: string)
    ensures Join(Split(t, sep), sep) == t
    decreases |t|
  {
    if |sep| == 0 {
      JoinChars(t);
    } else if |t| < |sep| {
    } else if t[..|sep|] == sep {
      var rest := Split(t[|sep|..], sep);
      JoinSplit(t[|sep|..], sep);
      JoinCons("", rest, sep);
      assert t == sep + t[|sep|..];
    } else {
      var rest := Split(t[1..], sep);
      JoinSplit(t[1..], sep);
      JoinPrepend(t[0], rest, sep);
      assert t == [t[0]] + t[1..];
    }
  }

  lemma JoinCons(p: string, rest: seq<string>, sep: string)
    requires |rest| >= 1
    ensures Join([p] + rest, sep) == p + sep + Join(rest, sep)
  {
    assert ([p] + rest)[1..] == rest;
  }

  /** Putting a character before the first piece puts it before the joined text. */
  lemma JoinPrepend(c: char, parts: seq<string>, sep: string)
    requires |parts| >= 1
    ensures Join([[c] + parts[0]] + parts[1..], sep) == [c] + Join(parts, sep)
  {
    var q := [[c] + parts[0]] + parts[1..];
    if |parts| == 1 {
      assert q == [[c] + parts[0]];
    } else {
      assert q[1..] == parts[1..];
      assert parts == [parts[0]] + parts[1..];
      JoinCons(parts[0], parts[1..], sep);
      JoinCons([c] + parts[0], parts[1..], sep);
    }
  }

  lemma {:induction false} JoinChars(t: string)
    ensures Join(seq(|t|, i requires 0 <= i < |t| => [t[i]]), "") == t
    decreases |t|
  {
    if |t| > 1 {
      JoinChars(t[1..]);
      var parts := seq(|t|, i requires 0 <= i < |t| => [t[i]]);
      assert parts[1..] == seq(|t[1..]|, i requires 0 <= i < |t[1..]| => [t[1..][i]]);
    }
  }

  /** Splitting at a separator that does not occur yields the whole text. */
  lemma {:induction false} SplitAbsent(t: string, sep: string)
    requires |sep| > 0 && !Occurs(t, sep)
    ensures Split(t, sep) == [t]
    decreases |t|
  {
    if |t| >= |sep| {
      assert !OccursAt(t, sep, 0);
      forall i | OccursAt(t[1..], sep, i)
        ensures false
      {
        assert t[1..][i..i + |sep|] == t[i + 1..i + 1 + |sep|];
        assert OccursAt(t, sep, i + 1);
      }
      SplitAbsent(t[1..], sep);
      assert [t[0]] + t[1..] == t;
    }
  }

  /** Replacing a text that does not occur changes nothing. */
  lemma ReplaceAllAbsent(target: string, search: string, replacement: string)
    requires |search| > 0 && !Occurs(target, search)
    ensures ReplaceAll(target, search, replacement) == target
  {
    SplitAbsent(target, search);
  }

  /** Replacing any text by itself changes nothing. */
  lemma ReplaceAllSelf(target: string, search: string)
    ensures ReplaceAll(target, search, search) == target
  {
    JoinSplit(target, search);
  }

  // ----- difference and union ---------------------------------------------

  predicate Distinct<T(==)>(xs: seq<T>) {
    forall i, j :: 0 <= i < j < |xs| ==> xs[i] != xs[j]
  }

  /** `[...new Set(xs)]`: the first occurrence of every element, in order. */
  function Dedup<T(==)>(xs: seq<T>): seq<T>
    decreases |xs|
  {
    if |xs| == 0 then []
    else
      var d := Dedup(xs[..|xs| - 1]);
      if xs[|xs| - 1] in d then d else d + [xs[|xs| - 1]]
  }

  /** The elements of `xs` that are not in `ys`, in `xs`'s order. */
  function Without<T(==)>(xs: seq<T>, ys: seq<T>): seq<T>
    decreases |xs|
  {
    if |xs| == 0 then []
    else Without(xs[..|xs| - 1], ys) + (if xs[|xs| - 1] in ys then [] else [xs[|xs| - 1]])
  }

  /** A Set holds exactly the elements it was built from. */
  lemma {:induction false} DedupMember<T>(xs: seq<T>, x: T)
    ensures x in Dedup(xs) <==> x in xs
    decreases |xs|
  {
    if |xs| > 0 {
      DedupMember(xs[..|xs| - 1], x);
      assert xs == xs[..|xs| - 1] + [xs[|xs| - 1]];
    }
  }

  /** A Set holds every element once. */
  lemma {:induction false} DedupIsDistinct<T>(xs: seq<T>)
    ensures Distinct(Dedup(xs))
    decreases |xs|
  {
    if |xs| > 0 {
      DedupIsDistinct(xs[..|xs| - 1]);
    }
  }

  lemma {:induction false} WithoutMember<T>(xs: seq<T>, ys: seq<T>, x: T)
    ensures x in Without(xs, ys) <==> x in xs && x !in ys
    decreases |xs|
  {
    if |xs| > 0 {
      WithoutMember(xs[..|xs| - 1], ys, x);
      assert xs == xs[..|xs| - 1] + [xs[|xs| - 1]];
    }
  }

  lemma {:induction false} WithoutDistinct<T>(xs: seq<T>, ys: seq<T>)
    requires Distinct(xs)
    ensures Distinct(Without(xs, ys))
    decreases |xs|
  {
    if |xs| > 0 {
      var init := xs[..|xs| - 1];
      WithoutDistinct(init, ys);
      WithoutMember(init, ys, xs[|xs| - 1]);
    }
  }

  lemma WithoutSnoc<T>(xs: seq<T>, x: T, ys: seq<T>)
    ensures Without(xs + [x], ys) == Without(xs, ys) + (if x in ys then [] else [x])
  {
    assert (xs + [x])[..|xs + [x]| - 1] == xs;
  }

  lemma {:induction false} WithoutAppend<T>(xs: seq<T>, ys: seq<T>, y: T)
    ensures Without(Without(xs, ys), [y]) == Without(xs, ys + [y])
    decreases |xs|
  {
    if |xs| > 0 {
      var init := xs[..|xs| - 1];
      var x := xs[|xs| - 1];
      WithoutAppend(init, ys, y);
      var w := Without(init, ys);
      if x in ys {
        assert Without(xs, ys) == w;
      } else {
        assert Without(xs, ys) == w + [x];
        WithoutSnoc(w, x, [y]);
      }
    }
  }

  lemma {:induction false} WithoutNone<T>(xs: seq<T>)
    ensures Without(xs, []) == xs
    decreases |xs|
  {
    if |xs| > 0 {
      WithoutNone(xs[..|xs| - 1]);
    }
  }

  /** Removing a superset leaves nothing. */
  lemma {:induction false} WithoutAll<T>(xs: seq<T>, ys: seq<T>)
    requires forall i :: 0 <= i < |xs| ==> xs[i] in ys
    ensures Without(xs, ys) == []
    decreases |xs|
  {
    if |xs| > 0 {
      WithoutAll(xs[..|xs| - 1], ys);
    }
  }

  lemma DistinctPrefix<T>(xs: seq<T>, k: int)
    requires Distinct(xs) && 0 <= k <= |xs|
    ensures Distinct(xs[..k])
  {
  }

  /** Removing a prefix of a sequence without repeats leaves the rest of it. */
  lemma {:induction false} WithoutPrefix<T>(xs: seq<T>, k: int)
    requires Distinct(xs) && 0 <= k <= |xs|
    ensures Without(xs, xs[..k]) == xs[k..]
    decreases |xs|
  {
    if |xs| > k {
      var init := xs[..|xs| - 1];
      assert init[..k] == xs[..k];
      WithoutPrefix(init, k);
      assert xs[|xs| - 1] !in xs[..k];
      assert xs[k..] == init[k..] + [xs[|xs| - 1]];
    } else {
      WithoutAll(xs, xs[..k]);
    }
  }

  /** `difference(setA, setB)`: a Set of A's elements with every element of B deleted. */
  method Difference<T(==)>(setA: seq<T>, setB: seq<T>) returns (d: seq<T>)
    ensures d == Without(Dedup(setA), setB)
    ensures forall x :: x in d <==> x in setA && x !in setB
    ensures Distinct(d)
  {
    d := Dedup(setA);
    WithoutNone(d);
    for i := 0 to |setB|
      invariant d == Without(Dedup(setA), setB[..i])
    {
      WithoutAppend(Dedup(setA), setB[..i], setB[i]);
      assert setB[..i + 1] == setB[..i] + [setB[i]];
      d := Without(d, [setB[i]]);
    }
    assert setB[..|setB|] == setB;
    DedupIsDistinct(setA);
    WithoutDistinct(Dedup(setA), setB);
    forall x
      ensures x in d <==> x in setA && x !in setB
    {
      WithoutMember(Dedup(setA), setB, x);
      DedupMember(setA, x);
    }
  }

  /** Adding one element to a Set appends it unless already present. */
  lemma DedupSnoc<T>(xs: seq<T>, x: T)
    ensures Dedup(xs + [x]) == if x in xs then Dedup(xs) else Dedup(xs) + [x]
  {
    assert (xs + [x])[..|xs + [x]| - 1] == xs;
    DedupMember(xs, x);
  }

  /** `union(setA, setB)`: a Set of A's elements, then B's elements added in order. */
  method Union<T(==)>(setA: seq<T>, setB: seq<T>) returns (u: seq<T>)
    ensures u == Dedup(setA + setB)
    ensures forall x :: x in u <==> x in setA || x in setB
    ensures Distinct(u)
  {
    u := Dedup(setA);
    assert setA + setB[..0] == setA;
    for i := 0 to |setB|
      invariant u == Dedup(setA + setB[..i])
    {
      UnionStep(setA, setB, i);
      if setB[i] !in u {
        u := u + [setB[i]];
      }
    }
    assert setA + setB[..|setB|] == setA + setB;
    DedupIsDistinct(setA + setB);
    forall x
      ensures x in u <==> x in setA || x in setB
    {
      DedupMember(setA + setB, x);
    }
  }

  lemma UnionStep<T>(a: seq<T>, b: seq<T>, i: int)
    requires 0 <= i < |b|
    ensures var d := Dedup(a + b[..i]);
            Dedup(a + b[..i + 1]) == if b[i] in d then d else d + [b[i]]
  {
    assert a + b[..i + 1] == (a + b[..i]) + [b[i]];
    DedupSnoc(a + b[..i], b[i]);
    DedupMember(a + b[..i], b[i]);
  }

  /** A sequence without repeats is its own Set. */
  lemma {:induction false} DedupDistinct<T>(xs: seq<T>)
    requires Distinct(xs)
    ensures Dedup(xs) == xs
    decreases |xs|
  {
    if |xs| > 0 {
      DedupDistinct(xs[..|xs| - 1]);
      assert xs == xs[..|xs| - 1] + [xs[|xs| - 1]];
    }
  }

  /** The union of two Sets keeps A's elements first, then B's elements not in A. */
  lemma {:induction false} UnionOfDistinct<T>(a: seq<T>, b: seq<T>)
    requires Distinct(a) && Distinct(b)
    ensures Dedup(a + b) == a + Without(b, a)
    decreases |b|
  {
    if |b| == 0 {
      assert a + b == a;
      DedupDistinct(a);
    } else {
      var b' := b[..|b| - 1];
      var x := b[|b| - 1];
      assert b == b' + [x];
      UnionOfDistinct(a, b');
      assert a + b == (a + b') + [x];
      DedupSnoc(a + b', x);
      WithoutSnoc(b', x, a);
      assert x !in b';
      if x in a {
        assert x in a + b';
      } else {
        assert x !in a + b';
        assert (a + Without(b', a)) + [x] == a + (Without(b', a) + [x]);
      }
    }
  }
}
