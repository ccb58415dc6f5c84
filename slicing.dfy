/**
 * The range-token parser `_parse_slice` (tools/elephant/image/utils.py) and
 * the Python subscript `xs[index]` it feeds: an integer picks one element or
 * raises `IndexError`, a slice saturates at the sequence bounds and raises
 * only for a zero step.
 */
module Slicing {
  import opened Wrappers
  import Strings

  /**
   * A segment, signal or spike-train index: an integer or a range string as
   * the command line gives it, or a `slice` object a Python caller passes.
   */
  datatype Token =
    | IntToken(n: int)
    | StrToken(s: string)
    | SliceToken(start: Option<int>, stop: Option<int>, step: Option<int>)

  /** What `_parse_slice` returns: an `int`, or a `slice(start, stop, step)` whose parts may be `None`. */
  datatype SliceIndex = Single(i: int) | Span(start: Option<int>, stop: Option<int>, step: Option<int>)

  /** One element, or the list a slice produces. */
  datatype Picked<T> = One(item: T) | Many(items: seq<T>)

  /** `IndexError` for an integer out of range; `ValueError` for a slice step of zero. */
  datatype IndexFailure = OutOfRange | ZeroStep

  /** One `start`/`stop`/`step` part: empty is `None`; `None` outside means `int()` failed. */
  function ParseBound(part: string): Option<Option<int>>
  {
    if part == "" then Some(None)
    else
      match Strings.ParseInt(part)
      case Some(n) => Some(Some(n))
      case None => None
  }

  function Succ(bound: Option<int>): Option<int>
  {
    match bound
    case Some(n) => Some(n + 1)
    case None => None
  }

  /** The colon-separated parts of a string token, with `"all"` read as `":"`. */
  function TokenParts(s: string): (parts: seq<string>)
    ensures |parts| >= 1
  {
    Strings.Split(if s == "all" then ":" else s, ':')
  }

  /**
   * `_parse_slice`: an integer or a slice object is returned unchanged; a string is split on
   * `:` into start, an inclusive stop (moved one on) and step, parts after the
   * third being ignored; `None` stands for the `ValueError` an unparsable
   * part raises.
   */
  function ParseSlice(token: Token): (r: Option<SliceIndex>)
    ensures token.IntToken? ==> r == Some(Single(token.n))
    ensures token.StrToken? && r.Some? ==> r.value.Span?
    ensures token.SliceToken? ==> r == Some(Span(token.start, token.stop, token.step))
  {
    match token
    case IntToken(n) => Some(Single(n))
    case SliceToken(start, stop, step) => Some(Span(start, stop, step))
    case StrToken(s) =>
      var parts := TokenParts(s);
      var start := ParseBound(parts[0]);
      var stop := if |parts| > 1 then ParseBound(parts[1]) else Some(None);
      var step := if |parts| > 2 then ParseBound(parts[2]) else Some(None);
      if start.None? || stop.None? || step.None? then None
      else Some(Span(start.value, Succ(stop.value), step.value))
  }

  // ---------------------------------------------------------------- subscript

  /** CPython's clamping of one slice bound to a sequence of length `n`. */
  function Adjust(v: int, n: nat, negativeStep: bool): (r: int)
    ensures negativeStep ==> -1 <= r <= n - 1
    ensures !negativeStep ==> 0 <= r <= n
  {
    if v < 0 then
      if v + n < 0 then (if negativeStep then -1 else 0) else v + n
    else if v >= n then (if negativeStep then n - 1 else n)
    else v
  }

  /** The positions `i, i + step, ...` strictly before `stop` in the direction of `step`. */
  function Walk(i: int, stop: int, step: int): (r: seq<int>)
    requires step != 0
    ensures step > 0 ==> forall k :: 0 <= k < |r| ==> i <= r[k] < stop
    ensures step < 0 ==> forall k :: 0 <= k < |r| ==> stop < r[k] <= i
    decreases if step > 0 then stop - i else i - stop
  {
    if (step > 0 && i < stop) || (step < 0 && i > stop) then [i] + Walk(i + step, stop, step)
    else []
  }

  /**
   * The walk visits `i + k * step` for `k = 0, 1, ...` and stops at the first
   * such position that is no longer before `stop`: no position is skipped.
   */
  lemma {:induction false} WalkPositions(i: int, stop: int, step: int)
    requires step != 0
    ensures var r := Walk(i, stop, step);
            (forall k :: 0 <= k < |r| ==> r[k] == i + k * step) &&
            (if step > 0 then i + |r| * step >= stop else i + |r| * step <= stop)
    decreases if step > 0 then stop - i else i - stop
  {
    if (step > 0 && i < stop) || (step < 0 && i > stop) {
      var r := Walk(i, stop, step);
      var rest := Walk(i + step, stop, step);
      WalkPositions(i + step, stop, step);
      assert r == [i] + rest;
      forall k | 0 <= k < |r|
        ensures r[k] == i + k * step
      {
        if k > 0 {
          assert r[k] == rest[k - 1];
          OneMoreStep(k - 1, step);
        }
      }
      OneMoreStep(|rest|, step);
    }
  }

  lemma OneMoreStep(k: int, step: int)
    ensures (k + 1) * step == k * step + step
  {
  }

  /** `range(*slice(start, stop, step).indices(n))`: the positions a slice selects. */
  function SliceIndices(n: nat, start: Option<int>, stop: Option<int>, step: int): (r: seq<int>)
    requires step != 0
    ensures forall k :: 0 <= k < |r| ==> 0 <= r[k] < n
  {
    Walk(SliceStart(n, start, step), SliceStop(n, stop, step), step)
  }

  /** The first position a slice visits: the clamped start, or the end it starts from when `None`. */
  function SliceStart(n: nat, start: Option<int>, step: int): int
  {
    match start
    case Some(v) => Adjust(v, n, step < 0)
    case None => if step < 0 then n - 1 else 0
  }

  /** The clamped bound a slice stops before. */
  function SliceStop(n: nat, stop: Option<int>, step: int): int
  {
    match stop
    case Some(v) => Adjust(v, n, step < 0)
    case None => if step < 0 then -1 else n
  }

  function Gather<T>(xs: seq<T>, positions: seq<int>): (r: seq<T>)
    requires forall k :: 0 <= k < |positions| ==> 0 <= positions[k] < |xs|
    ensures |r| == |positions|
  {
    seq(|positions|, k requires 0 <= k < |positions| => xs[positions[k]])
  }

  /**
   * `xs[index]` on a Python list: an integer is valid exactly in `-n <= i < n`
   * (negative counts from the end); a slice never fails except for step 0.
   */
  /** Python's negative index counts from the end: it is the index modulo the length. */
  lemma WrapIndex(i: int, n: nat)
    requires -(n as int) <= i < n
    ensures i % n == if i < 0 then i + n else i
  {
  }

  function Subscript<T>(xs: seq<T>, index: SliceIndex): (r: Result<Picked<T>, IndexFailure>)
    ensures index.Single? ==> (r.Ok? <==> -|xs| <= index.i < |xs|)
    ensures index.Single? && r.Ok? ==> r.value.One? && r.value.item in xs
    ensures index.Single? && r.Ok? ==> r.value.item == xs[index.i % |xs|]
    ensures index.Single? && r.Err? ==> r.error == OutOfRange
    ensures index.Span? ==> (r.Err? <==> index.step == Some(0))
    ensures index.Span? && r.Err? ==> r.error == ZeroStep
    ensures index.Span? && r.Ok? ==> r.value.Many? && forall k :: 0 <= k < |r.value.items| ==> r.value.items[k] in xs
  {
    match index
    case Single(i) =>
      if -|xs| <= i < |xs| then
        WrapIndex(i, |xs|);
        Ok(One(xs[if i < 0 then i + |xs| else i]))
      else Err(OutOfRange)
    case Span(start, stop, step) =>
      var stride := step.GetOr(1);
      if stride == 0 then Err(ZeroStep) else Ok(Many(Gather(xs, SliceIndices(|xs|, start, stop, stride))))
  }

  // ---------------------------------------------------------------- properties

  /** With step 1 the positions are the consecutive run from `lo` up to `hi`. */
  lemma {:induction false} WalkStepOne<T>(xs: seq<T>, lo: int, hi: int)
    requires 0 <= lo <= hi <= |xs|
    ensures Gather(xs, Walk(lo, hi, 1)) == xs[lo..hi]
    decreases hi - lo
  {
    if lo < hi {
      WalkStepOne(xs, lo + 1, hi);
      var w := Walk(lo + 1, hi, 1);
      assert Walk(lo, hi, 1) == [lo] + w;
      GatherCons(xs, lo, w);
      assert xs[lo..hi] == [xs[lo]] + xs[lo + 1..hi];
    }
  }

  /** Gathering a leading position puts its element first. */
  lemma GatherCons<T>(xs: seq<T>, p: int, positions: seq<int>)
    requires 0 <= p < |xs|
    requires forall k :: 0 <= k < |positions| ==> 0 <= positions[k] < |xs|
    ensures Gather(xs, [p] + positions) == [xs[p]] + Gather(xs, positions)
  {
  }

  /** A walk whose start is already past its stop is empty. */
  lemma WalkEmpty(lo: int, hi: int)
    requires hi <= lo
    ensures Walk(lo, hi, 1) == []
  {
  }

  /**
   * Python's slice semantics with step 1: the bounds are clamped into
   * `0..n` (negative ones counted from the end) and the result is the run
   * between them, empty when they cross.
   */
  lemma SpanStepOne<T>(xs: seq<T>, start: Option<int>, stop: Option<int>, step: Option<int>)
    requires step == None || step == Some(1)
    ensures var lo := match start case Some(v) => Adjust(v, |xs|, false) case None => 0;
            var hi := match stop case Some(v) => Adjust(v, |xs|, false) case None => |xs|;
            Subscript(xs, Span(start, stop, step)) == Ok(Many(if lo <= hi then xs[lo..hi] else []))
  {
    var lo := match start case Some(v) => Adjust(v, |xs|, false) case None => 0;
    var hi := match stop case Some(v) => Adjust(v, |xs|, false) case None => |xs|;
    assert SliceIndices(|xs|, start, stop, 1) == Walk(lo, hi, 1);
    if lo <= hi {
      WalkStepOne(xs, lo, hi);
    } else {
      WalkEmpty(lo, hi);
    }
  }

  /**
   * Any step: the items are the elements at `lo`, `lo + step`, ... in that
   * order, each strictly before the clamped stop, and the next position would
   * not be.
   */
  lemma SpanItems<T>(xs: seq<T>, start: Option<int>, stop: Option<int>, step: int)
    requires step != 0
    ensures var lo, hi := SliceStart(|xs|, start, step), SliceStop(|xs|, stop, step);
            var r := Subscript(xs, Span(start, stop, Some(step)));
            r.Ok? && r.value.Many? &&
            (forall k :: 0 <= k < |r.value.items| ==>
               0 <= lo + k * step < |xs| && r.value.items[k] == xs[lo + k * step] &&
               (if step > 0 then lo + k * step < hi else lo + k * step > hi)) &&
            (if step > 0 then lo + |r.value.items| * step >= hi else lo + |r.value.items| * step <= hi)
  {
    var lo, hi := SliceStart(|xs|, start, step), SliceStop(|xs|, stop, step);
    var positions := SliceIndices(|xs|, start, stop, step);
    assert positions == Walk(lo, hi, step);
    WalkPositions(lo, hi, step);
    assert Subscript(xs, Span(start, stop, Some(step))) == Ok(Many(Gather(xs, positions)));
  }

  /** `xs[i] for i in reversed positions`: the list back to front. */
  function Reversed<T>(xs: seq<T>): (r: seq<T>)
    ensures |r| == |xs|
    ensures forall k :: 0 <= k < |xs| ==> r[k] == xs[|xs| - 1 - k]
  {
    if xs == [] then [] else [xs[|xs| - 1]] + Reversed(xs[..|xs| - 1])
  }

  /** `"::-1"` is the slice that reverses the list. */
  lemma ReverseSlice<T>(xs: seq<T>)
    ensures Subscript(xs, Span(None, None, Some(-1))) == Ok(Many(Reversed(xs)))
  {
    SpanItems(xs, None, None, -1);
    var n := |xs|;
    assert SliceStart(n, None, -1) == n - 1 && SliceStop(n, None, -1) == -1;
    var items := Subscript(xs, Span(None, None, Some(-1))).value.items;
    if |items| > 0 {
      assert n - 1 + (|items| - 1) * -1 > -1;
    }
    assert n - 1 + |items| * -1 <= -1;
    assert |items| == n;
    forall k | 0 <= k < n
      ensures items[k] == Reversed(xs)[k]
    {
      assert items[k] == xs[n - 1 + k * -1];
    }
    assert items == Reversed(xs);
  }

  /** `slice(0, 5, 2)`, the reading of `"0:4:2"`, takes positions 0, 2 and 4 of six elements. */
  lemma EveryOtherElement()
    ensures Subscript([10, 11, 12, 13, 14, 15], Span(Some(0), Some(5), Some(2))) == Ok(Many([10, 12, 14]))
  {
    var xs := [10, 11, 12, 13, 14, 15];
    SpanItems(xs, Some(0), Some(5), 2);
    assert SliceStart(6, Some(0), 2) == 0 && SliceStop(6, Some(5), 2) == 5;
    var items := Subscript(xs, Span(Some(0), Some(5), Some(2))).value.items;
    if |items| > 0 {
      assert 0 + (|items| - 1) * 2 < 5;
    }
    assert 0 + |items| * 2 >= 5;
    assert |items| == 3;
    assert items[0] == xs[0] && items[1] == xs[2] && items[2] == xs[4];
    assert items == [10, 12, 14];
  }

  /** `"all"` parses to the full slice `slice(None, None, None)`. */
  lemma AllIsFullSlice()
    ensures ParseSlice(StrToken("all")) == Some(Span(None, None, None))
  {
    AllParts();
  }

  /** `"all"` is read as `":"`, whose two parts are empty. */
  lemma AllParts()
    ensures TokenParts("all") == ["", ""]
  {
    Strings.SplitAround("", "", ':');
    assert "" + [':'] + "" == ":";
  }

  /** The full slice selects every element, in order. */
  lemma FullSliceSelectsEverything<T>(xs: seq<T>)
    ensures Subscript(xs, Span(None, None, None)) == Ok(Many(xs))
  {
    SpanStepOne(xs, None, None, None);
    assert xs[0..|xs|] == xs;
  }

  /** `"a:b"` parses to `slice(a, b + 1, None)`: the stop bound of a token is inclusive. */
  lemma ParseRange(a: int, b: int)
    ensures ParseSlice(StrToken(Strings.IntToString(a) + ":" + Strings.IntToString(b)))
         == Some(Span(Some(a), Some(b + 1), None))
  {
    var sa, sb := Strings.IntToString(a), Strings.IntToString(b);
    RangeParts(sa, sb);
    Strings.ParseIntToString(a);
    Strings.ParseIntToString(b);
  }

  /** `"a:b:c"` parses to `slice(a, b + 1, c)`. */
  lemma ParseRangeWithStep(a: int, b: int, c: int)
    ensures ParseSlice(StrToken(Strings.IntToString(a) + ":" + Strings.IntToString(b) + ":" + Strings.IntToString(c)))
         == Some(Span(Some(a), Some(b + 1), Some(c)))
  {
    var sa, sb, sc := Strings.IntToString(a), Strings.IntToString(b), Strings.IntToString(c);
    DigitsHaveNoColon(sa);
    DigitsHaveNoColon(sb);
    DigitsHaveNoColon(sc);
    ThreeParts(sa, sb, sc);
    Strings.ParseIntToString(a);
    Strings.ParseIntToString(b);
    Strings.ParseIntToString(c);
  }

  /** A token without a colon, such as `"3"`, is a start bound: `slice(3, None, None)`, not one index. */
  lemma ParseColonless(a: int)
    ensures ParseSlice(StrToken(Strings.IntToString(a))) == Some(Span(Some(a), None, None))
  {
    var sa := Strings.IntToString(a);
    DigitsHaveNoColon(sa);
    Strings.SplitNoSeparator(sa, ':');
    assert sa != "all";
    Strings.ParseIntToString(a);
  }

  /** Parts after the third are ignored: `"a:b:c:junk"` parses like `"a:b:c"`. */
  lemma ExtraPartsIgnored(p0: string, p1: string, p2: string, rest: string)
    requires ':' !in p0 && ':' !in p1 && ':' !in p2
    ensures ParseSlice(StrToken(p0 + ":" + p1 + ":" + p2 + ":" + rest))
         == ParseSlice(StrToken(p0 + ":" + p1 + ":" + p2))
  {
    var short := p0 + ":" + p1 + ":" + p2;
    ThreeParts(p0, p1, p2);
    FourParts(p0, p1, p2, rest);
    SameLeadingParts(short + ":" + rest, short);
  }

  /** `_parse_slice` looks only at the first three parts of a string token. */
  lemma SameLeadingParts(s: string, t: string)
    requires |TokenParts(s)| >= 3 && |TokenParts(t)| >= 3
    requires TokenParts(s)[..3] == TokenParts(t)[..3]
    ensures ParseSlice(StrToken(s)) == ParseSlice(StrToken(t))
  {
    assert TokenParts(s)[0] == TokenParts(t)[0];
    assert TokenParts(s)[1] == TokenParts(t)[1];
    assert TokenParts(s)[2] == TokenParts(t)[2];
  }

  /** Colon-free parts followed by a colon and any rest split into those parts first. */
  lemma FourParts(p0: string, p1: string, p2: string, rest: string)
    requires ':' !in p0 && ':' !in p1 && ':' !in p2
    ensures var parts := TokenParts(p0 + ":" + p1 + ":" + p2 + ":" + rest);
            |parts| >= 3 && parts[..3] == [p0, p1, p2]
  {
    var long := p0 + ":" + p1 + ":" + p2 + ":" + rest;
    assert long == p0 + [':'] + (p1 + [':'] + (p2 + [':'] + rest));
    Strings.SplitAround(p0, p1 + [':'] + (p2 + [':'] + rest), ':');
    Strings.SplitAround(p1, p2 + [':'] + rest, ':');
    Strings.SplitAround(p2, rest, ':');
    Strings.SplitNoSeparator(p0, ':');
    Strings.SplitNoSeparator(p1, ':');
    Strings.SplitNoSeparator(p2, ':');
    assert long != "all";
  }

  /** Three colon-free parts joined by colons split back into those parts. */
  lemma ThreeParts(p0: string, p1: string, p2: string)
    requires ':' !in p0 && ':' !in p1 && ':' !in p2
    ensures TokenParts(p0 + ":" + p1 + ":" + p2) == [p0, p1, p2]
  {
    var s := p0 + ":" + p1 + ":" + p2;
    assert s == p0 + [':'] + (p1 + [':'] + p2);
    Strings.SplitAround(p0, p1 + [':'] + p2, ':');
    Strings.SplitAround(p1, p2, ':');
    Strings.SplitNoSeparator(p0, ':');
    Strings.SplitNoSeparator(p1, ':');
    Strings.SplitNoSeparator(p2, ':');
    assert s != "all";
  }

  /**
   * A string token is rejected exactly when one of its first three parts is
   * non-empty and not an integer.
   */
  lemma ParseSliceFails(s: string)
    ensures ParseSlice(StrToken(s)).None? <==>
            exists k :: 0 <= k < 3 && k < |TokenParts(s)| && BadPart(TokenParts(s)[k])
  {
    var parts := TokenParts(s);
    if ParseSlice(StrToken(s)).None? {
      if BadPart(parts[0]) {
        assert 0 < |parts|;
      } else if |parts| > 1 && BadPart(parts[1]) {
        assert 1 < |parts|;
      } else {
        assert |parts| > 2 && BadPart(parts[2]);
      }
    }
  }

  /** A part that `int()` cannot read. */
  predicate BadPart(part: string)
  {
    part != "" && Strings.ParseInt(part).None?
  }

  /** The inclusive range `"a:b"` over a list selects the elements `a` through `b`, saturating at the end. */
  lemma InclusiveRangeSelects<T>(xs: seq<T>, a: nat, b: nat)
    requires a <= b
    ensures var hi := if b + 1 <= |xs| then b + 1 else |xs|;
            Subscript(xs, Span(Some(a), Some(b + 1), None)) == Ok(Many(if a <= hi then xs[a..hi] else []))
  {
    SpanStepOne(xs, Some(a), Some(b + 1), None);
  }

  /** A stop before the start, such as `"3:1"`, selects nothing and does not fail. */
  lemma ReversedRangeIsEmpty<T>(xs: seq<T>, a: nat, b: nat)
    requires b < a
    ensures Subscript(xs, Span(Some(a), Some(b + 1), None)) == Ok(Many([]))
  {
    SpanStepOne(xs, Some(a), Some(b + 1), None);
  }

  /** `"0:-1"` parses to `slice(0, 0, None)`, which is always empty. */
  lemma ZeroToMinusOneIsEmpty<T>(xs: seq<T>)
    ensures ParseSlice(StrToken("0:-1")) == Some(Span(Some(0), Some(0), None))
    ensures Subscript(xs, Span(Some(0), Some(0), None)) == Ok(Many([]))
  {
    ParseRange(0, -1);
    assert Strings.IntToString(0) + ":" + Strings.IntToString(-1) == "0:-1";
    SpanStepOne(xs, Some(0), Some(0), None);
  }

  /** A bound as it appears in a range token: empty for `None`, else the integer's decimal text. */
  function Rendered(bound: Option<int>): string
  {
    match bound
    case None => ""
    case Some(n) => Strings.IntToString(n)
  }

  /** A rendered bound has no colon and reads back as the bound. */
  lemma RenderedBound(bound: Option<int>)
    ensures ':' !in Rendered(bound)
    ensures ParseBound(Rendered(bound)) == Some(bound)
  {
    if bound.Some? {
      DigitsHaveNoColon(Rendered(bound));
      Strings.ParseIntToString(bound.value);
    }
  }

  /** Empty parts are `None`: `"a:b:c"` with any of them left out, such as `"::2"` or `"1::2"`. */
  lemma EmptyPartsAreNone(start: Option<int>, stop: Option<int>, step: Option<int>)
    ensures ParseSlice(StrToken(Rendered(start) + ":" + Rendered(stop) + ":" + Rendered(step)))
         == Some(Span(start, Succ(stop), step))
  {
    RenderedBound(start);
    RenderedBound(stop);
    RenderedBound(step);
    ThreeParts(Rendered(start), Rendered(stop), Rendered(step));
  }

  /** The two-part form: `"2:"`, `":5"` and `":"` leave the missing bounds `None` and the step `None`. */
  lemma EmptyPartsAreNoneTwoParts(start: Option<int>, stop: Option<int>)
    ensures ParseSlice(StrToken(Rendered(start) + ":" + Rendered(stop))) == Some(Span(start, Succ(stop), None))
  {
    RenderedBound(start);
    RenderedBound(stop);
    TwoParts(Rendered(start), Rendered(stop));
  }

  /** Two colon-free parts joined by a colon split back into those parts. */
  lemma TwoParts(p0: string, p1: string)
    requires ':' !in p0 && ':' !in p1
    ensures TokenParts(p0 + ":" + p1) == [p0, p1]
  {
    assert p0 + ":" + p1 == p0 + [':'] + p1;
    Strings.SplitAround(p0, p1, ':');
    Strings.SplitNoSeparator(p0, ':');
    Strings.SplitNoSeparator(p1, ':');
    assert p0 + ":" + p1 != "all";
  }

  /** Integer tokens render without a colon. */
  lemma DigitsHaveNoColon(s: string)
    requires exists n :: s == Strings.IntToString(n)
    ensures ':' !in s
  {
    var n :| s == Strings.IntToString(n);
    var m: nat := if n < 0 then -n else n;
    var d := Strings.NatToString(m);
    assert forall i :: 0 <= i < |d| ==> Strings.IsDigit(d[i]);
    if n < 0 {
      assert s == "-" + d;
    }
  }

  lemma RangeParts(sa: string, sb: string)
    requires exists n :: sa == Strings.IntToString(n)
    requires exists n :: sb == Strings.IntToString(n)
    ensures TokenParts(sa + ":" + sb) == [sa, sb]
  {
    DigitsHaveNoColon(sa);
    DigitsHaveNoColon(sb);
    assert sa + ":" + sb == sa + [':'] + sb;
    Strings.SplitAround(sa, sb, ':');
    Strings.SplitNoSeparator(sa, ':');
    Strings.SplitNoSeparator(sb, ':');
    assert sa + ":" + sb != "all";
  }
}
