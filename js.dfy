/** The small part of JavaScript's value and string semantics that the
    gallery's logic relies on: truthiness, template-literal rendering of
    numbers, `String.prototype.split` on a one-character separator,
    `Array.prototype.join`, `String.prototype.includes`,
    `String.prototype.startsWith` and `Array.prototype.indexOf`. */
module Js {

  datatype Option<+T> = None | Some(value: T)

  /** A JavaScript value as it can appear in an options object. Numbers are
      integers here; fractional numbers and NaN are not modelled. */
  datatype JsValue = Undefined | Null | Bool(b: bool) | Num(n: int) | Str(s: string)

  /** JavaScript's truthiness: `undefined`, `null`, `false`, `0` and `""`
      are falsy, every other value of this model is truthy. */
  predicate Truthy(v: JsValue)
  {
    match v
    case Undefined => false
    case Null => false
    case Bool(b) => b
    case Num(n) => n != 0
    case Str(s) => s != ""
  }

  /** The decimal digit for `d`. */
  function Digit(d: nat): (c: char)
    requires d < 10
    ensures '0' <= c <= '9'
    ensures c as int - '0' as int == d
  {
    (d + '0' as int) as char
  }

  predicate IsDigit(c: char)
  {
    '0' <= c <= '9'
  }

  /** How JavaScript renders a non-negative integer: shortest decimal form,
      no leading zero. */
  function NatToString(n: nat): (s: string)
    ensures |s| >= 1
    ensures forall k :: 0 <= k < |s| ==> IsDigit(s[k])
    ensures |s| > 1 ==> s[0] != '0'
    decreases n
  {
    if n < 10 then [Digit(n)] else NatToString(n / 10) + [Digit(n % 10)]
  }

  /** Reads a string of decimal digits back as a number. */
  function ParseDecimal(s: string): nat
    requires forall k :: 0 <= k < |s| ==> IsDigit(s[k])
  {
    if s == [] then 0
    else
      assert IsDigit(s[|s| - 1]);
      ParseDecimal(s[..|s| - 1]) * 10 + (s[|s| - 1] as int - '0' as int)
  }

  /** Parsing undoes rendering. */
  lemma {:induction false} ParseNatToString(n: nat)
    ensures ParseDecimal(NatToString(n)) == n
    decreases n
  {
    var s := NatToString(n);
    if n >= 10 {
      ParseNatToString(n / 10);
      assert s[..|s| - 1] == NatToString(n / 10);
    }
  }

  /** Distinct numbers render as distinct strings. */
  lemma NatToStringInjective(a: nat, b: nat)
    requires NatToString(a) == NatToString(b)
    ensures a == b
  {
    ParseNatToString(a);
    ParseNatToString(b);
  }

  /** How a template literal `${n}` renders an integer. */
  function IntToString(i: int): (s: string)
    ensures |s| >= 1
    ensures forall k :: 0 <= k < |s| ==> IsDigit(s[k]) || (k == 0 && s[k] == '-')
    ensures (i < 0) == (s[0] == '-')
  {
    if i < 0 then "-" + NatToString(-i) else NatToString(i)
  }

  /** The rendering denotes the number: after a `-` for a negative, the
      digits carry no leading zero and read back as the magnitude. */
  lemma IntToStringValue(i: int)
    ensures var s := IntToString(i);
            var digits := if i < 0 then s[1..] else s;
            |digits| >= 1 && (forall k :: 0 <= k < |digits| ==> IsDigit(digits[k]))
            && (|digits| > 1 ==> digits[0] != '0')
            && ParseDecimal(digits) == (if i < 0 then -i else i)
  {
    var m := if i < 0 then -i else i;
    var s := IntToString(i);
    assert (if i < 0 then s[1..] else s) == NatToString(m);
    ParseNatToString(m);
  }

  /** How a template literal `${v}` renders a value. */
  function ToStr(v: JsValue): string
  {
    match v
    case Undefined => "undefined"
    case Null => "null"
    case Bool(b) => if b then "true" else "false"
    case Num(n) => IntToString(n)
    case Str(s) => s
  }

  /** `s.split(sep)` for a one-character separator: the maximal runs between
      separators, including empty ones; never an empty array. */
  function Split(s: string, sep: char): (parts: seq<string>)
    ensures |parts| >= 1
    ensures forall i :: 0 <= i < |parts| ==> sep !in parts[i]
    decreases |s|
  {
    if s == [] then [""]
    else
      var rest := Split(s[1..], sep);
      if s[0] == sep then [""] + rest
      else [[s[0]] + rest[0]] + rest[1..]
  }

  /** `parts.join(sep)`. */
  function Join(parts: seq<string>, sep: string): string
  {
    if parts == [] then ""
    else if |parts| == 1 then parts[0]
    else parts[0] + sep + Join(parts[1..], sep)
  }

  /** Joining what was split gives back the original string. */
  lemma {:induction false} JoinSplit(s: string, sep: char)
    ensures Join(Split(s, sep), [sep]) == s
    decreases |s|
  {
    if s != [] {
      var rest := Split(s[1..], sep);
      JoinSplit(s[1..], sep);
      if s[0] == sep {
        assert Split(s, sep)[1..] == rest;
        assert s == [sep] + s[1..];
      } else if |rest| == 1 {
        assert s == [s[0]] + s[1..];
      } else {
        var parts := Split(s, sep);
        assert parts[1..] == rest[1..];
        assert Join(rest, [sep]) == rest[0] + [sep] + Join(rest[1..], [sep]);
        assert s == [s[0]] + s[1..];
      }
    }
  }

  /** A string free of the separator is its own only segment, and whatever
      follows the first separator is split independently. */
  lemma {:induction false} SplitAfterSegment(a: string, b: string, sep: char)
    requires sep !in a
    ensures Split(a + [sep] + b, sep) == [a] + Split(b, sep)
    decreases |a|
  {
    var s := a + [sep] + b;
    if a == [] {
      assert s[1..] == b;
    } else {
      assert s[1..] == a[1..] + [sep] + b;
      SplitAfterSegment(a[1..], b, sep);
      assert [s[0]] + a[1..] == a;
    }
  }

  lemma {:induction false} SplitSegment(a: string, sep: char)
    requires sep !in a
    ensures Split(a, sep) == [a]
    decreases |a|
  {
    if a != [] {
      SplitSegment(a[1..], sep);
      assert [a[0]] + a[1..] == a;
    }
  }

  /** Splitting what was joined gives back the segments, provided none of
      them contains the separator. */
  lemma {:induction false} SplitJoin(parts: seq<string>, sep: char)
    requires parts != []
    requires forall i :: 0 <= i < |parts| ==> sep !in parts[i]
    ensures Split(Join(parts, [sep]), sep) == parts
    decreases |parts|
  {
    if |parts| == 1 {
      SplitSegment(parts[0], sep);
    } else {
      SplitJoin(parts[1..], sep);
      SplitAfterSegment(parts[0], Join(parts[1..], [sep]), sep);
      assert [parts[0]] + parts[1..] == parts;
    }
  }

  /** Joining a concatenation puts one separator between the two joins. */
  lemma {:induction false} JoinAppend(xs: seq<string>, ys: seq<string>, sep: string)
    requires xs != [] && ys != []
    ensures Join(xs + ys, sep) == Join(xs, sep) + sep + Join(ys, sep)
    decreases |xs|
  {
    if |xs| == 1 {
      assert (xs + ys)[1..] == ys;
    } else {
      JoinAppend(xs[1..], ys, sep);
      assert (xs + ys)[1..] == xs[1..] + ys;
    }
  }

  /** A segment list joins to its first `i + 1` segments joined, then the
      rest. */
  lemma JoinAt(parts: seq<string>, i: nat, sep: string)
    requires i + 1 < |parts|
    ensures Join(parts, sep) == Join(parts[..i + 1], sep) + sep + Join(parts[i + 1..], sep)
  {
    JoinAppend(parts[..i + 1], parts[i + 1..], sep);
    assert parts[..i + 1] + parts[i + 1..] == parts;
  }

  /** A separator followed by the join of `parts`, or nothing when there
      are no parts. */
  function SepJoin(parts: seq<string>, sep: string): string
  {
    if parts == [] then [] else sep + Join(parts, sep)
  }

  /** A concatenation splits back into its two halves. */
  lemma ConcatHalves<T>(a: seq<T>, b: seq<T>)
    ensures (a + b)[..|a|] == a && (a + b)[|a|..] == b
  {
  }

  /** Cutting the middle out of a three-part concatenation leaves the outer
      parts. */
  lemma CutMiddle<T>(a: seq<T>, m: seq<T>, b: seq<T>)
    ensures |a| + |m| <= |a + m + b|
    ensures (a + m + b)[..|a|] + (a + m + b)[|a| + |m|..] == a + b
  {
    var s := a + m + b;
    assert s[..|a|] == a;
    assert s[|a| + |m|..] == b;
  }

  /** Regrouping a four-part concatenation. */
  lemma Regroup<T>(a: seq<T>, b: seq<T>, c: seq<T>, d: seq<T>)
    ensures a + b + c + d == a + (b + c + d)
  {
  }

  /** The join of a list of segments is the join of its first `i + 1`
      segments followed by the rest, behind a separator. */
  lemma JoinPrefix(parts: seq<string>, i: nat, sep: string)
    requires i < |parts|
    ensures Join(parts, sep) == Join(parts[..i + 1], sep) + SepJoin(parts[i + 1..], sep)
  {
    if i + 1 == |parts| {
      assert parts[..i + 1] == parts;
    } else {
      JoinAt(parts, i, sep);
    }
  }

  /** Joining three lists, the outer two non-empty, puts a separator
      between each pair. */
  lemma JoinThree(head: seq<string>, mid: seq<string>, tail: seq<string>, sep: string)
    requires head != [] && mid != [] && tail != []
    ensures Join(head + mid + tail, sep) == Join(head, sep) + sep + Join(mid, sep) + sep + Join(tail, sep)
  {
    assert Join(mid + tail, sep) == Join(mid, sep) + sep + Join(tail, sep) by {
      JoinAppend(mid, tail, sep);
    }
    assert head + mid + tail == head + (mid + tail);
    JoinAppend(head, mid + tail, sep);
  }

  /** Joining a non-empty head, a non-empty middle and a possibly empty
      tail. */
  lemma JoinInsert(head: seq<string>, mid: seq<string>, tail: seq<string>, sep: string)
    requires head != [] && mid != []
    ensures Join(head + mid + tail, sep) == Join(head, sep) + SepJoin(mid, sep) + SepJoin(tail, sep)
  {
    var a, b := Join(head, sep), Join(mid, sep);
    assert SepJoin(mid, sep) == sep + b;
    if tail == [] {
      assert head + mid + tail == head + mid;
      JoinAppend(head, mid, sep);
      assert a + (sep + b) + [] == a + sep + b;
    } else {
      var c := Join(tail, sep);
      JoinThree(head, mid, tail, sep);
      assert a + (sep + b) + (sep + c) == a + sep + b + sep + c;
    }
  }

  /** Splicing segments `t` after position `i` of a segment list inserts
      `SepJoin(t, sep)` right after the first `i + 1` segments of the joined
      string. */
  lemma JoinSpliceAt(parts: seq<string>, i: nat, t: seq<string>, sep: string)
    requires i < |parts|
    ensures var joined := Join(parts, sep);
            var head := Join(parts[..i + 1], sep);
            |head| <= |joined| && joined[..|head|] == head
            && Join(parts[..i + 1] + t + parts[i + 1..], sep) == head + SepJoin(t, sep) + joined[|head|..]
  {
    var head, rest := Join(parts[..i + 1], sep), SepJoin(parts[i + 1..], sep);
    JoinPrefix(parts, i, sep);
    ConcatHalves(head, rest);
    if t == [] {
      assert parts[..i + 1] + t + parts[i + 1..] == parts;
    } else {
      JoinInsert(parts[..i + 1], t, parts[i + 1..], sep);
    }
  }

  /** A join ends with its last part. */
  lemma JoinEndsWithLast(xs: seq<string>, sep: string)
    requires xs != []
    ensures EndsWith(Join(xs, sep), xs[|xs| - 1])
  {
    var n := |xs| - 1;
    if n > 0 {
      var a := Join(xs[..n], sep) + sep;
      JoinAppend(xs[..n], [xs[n]], sep);
      assert xs[..n] + [xs[n]] == xs;
      assert Join([xs[n]], sep) == xs[n];
      ConcatHalves(a, xs[n]);
    }
  }

  /** `sub` occurs in `s` starting at position `i`. */
  predicate OccursAt(s: string, sub: string, i: int)
  {
    0 <= i <= |s| - |sub| && s[i..i + |sub|] == sub
  }

  /** An occurrence wholly before an insertion point survives the
      insertion in place. */
  lemma OccursBefore(head: string, ins: string, tail: string, sub: string, p: int)
    requires OccursAt(head + tail, sub, p) && p + |sub| <= |head|
    ensures OccursAt(head + ins + tail, sub, p)
  {
    assert (head + ins + tail)[p..p + |sub|] == (head + tail)[p..p + |sub|];
  }

  /** An occurrence wholly after an insertion point survives it, shifted by
      the inserted length. */
  lemma OccursAfter(head: string, ins: string, tail: string, sub: string, p: int)
    requires OccursAt(head + tail, sub, p) && |head| <= p
    ensures OccursAt(head + ins + tail, sub, p + |ins|)
  {
    assert (head + ins + tail)[p + |ins|..p + |ins| + |sub|] == (head + tail)[p..p + |sub|];
  }

  /** `s.includes(sub)`. */
  predicate Includes(s: string, sub: string)
    ensures Includes(s, sub) ==> |sub| <= |s|
  {
    exists i | 0 <= i <= |s| - |sub| :: OccursAt(s, sub, i)
  }

  /** `s.startsWith(prefix)`. */
  predicate StartsWith(s: string, prefix: string)
    ensures StartsWith(s, prefix) <==> |prefix| <= |s| && forall k :: 0 <= k < |prefix| ==> s[k] == prefix[k]
  {
    |prefix| <= |s| && s[..|prefix|] == prefix
  }

  /** `s.endsWith(suffix)`. */
  predicate EndsWith(s: string, suffix: string)
  {
    |suffix| <= |s| && s[|s| - |suffix|..] == suffix
  }

  /** `xs.indexOf(x)`: the first position holding `x`, or -1. */
  function IndexOf<T(==)>(xs: seq<T>, x: T): (i: int)
    ensures i == -1 <==> x !in xs
    ensures i != -1 ==> 0 <= i < |xs| && xs[i] == x && x !in xs[..i]
    decreases |xs|
  {
    if xs == [] then -1
    else if xs[0] == x then 0
    else
      var j := IndexOf(xs[1..], x);
      if j == -1 then -1 else j + 1
  }
}
