/**
 * `CliRange`: a command-line value that is either a single element `"a"` or
 * a range `"a..b"`, and the samplers that draw a concrete value from it.
 * Elements are integers here; parsing one element is the caller-supplied
 * `parse` (the element type's `FromStr`), and the random draw is a
 * nondeterministic choice.
 */
module Range {
  import opened Wrappers

  datatype CliRange<T> = CliRange(start: T, end: T)

  /** What a sampler gives: a value, or the panic `gen_range` raises on an empty range. */
  datatype Sample<T> = Sampled(value: T) | Panicked

  /** The separator `..` starts at index `i` of `s`. */
  predicate SeparatorAt(s: string, i: int) {
    0 <= i && i + 1 < |s| && s[i] == '.' && s[i + 1] == '.'
  }

  /** The index of the first `..` in `s`, if any. */
  function FirstSeparator(s: string): (r: Option<nat>)
    ensures r.Some? ==> SeparatorAt(s, r.value) && forall j :: 0 <= j < r.value ==> !SeparatorAt(s, j)
    ensures r.None? ==> forall j :: !SeparatorAt(s, j)
    decreases |s|
  {
    if |s| < 2 then None
    else if s[0] == '.' && s[1] == '.' then Some(0)
    else
      assert forall j :: 0 < j ==> (SeparatorAt(s, j) <==> SeparatorAt(s[1..], j - 1));
      match FirstSeparator(s[1..])
      case None => None
      case Some(i) => Some(i + 1)
  }

  /** `str::split_once("..")`: the text before and after the first `..`. */
  function SplitOnce(s: string): (r: Option<(string, string)>)
    ensures r.None? <==> forall j :: !SeparatorAt(s, j)
    ensures r.Some? ==> exists i :: && SeparatorAt(s, i)
                                    && (forall j :: 0 <= j < i ==> !SeparatorAt(s, j))
                                    && r.value == (s[..i], s[i + 2..])
  {
    match FirstSeparator(s)
    case None => None
    case Some(i) => Some((s[..i], s[i + 2..]))
  }

  /**
   * `CliRange::from_str`: `"a..b"` parses `a` and `b` (in that order, the
   * first error winning); without `..` the whole text is parsed once and
   * used for both ends.
   */
  function FromStr<T, E>(s: string, parse: string -> Result<T, E>): (r: Result<CliRange<T>, E>)
    ensures SplitOnce(s).None? && r.Ok? ==> r.value.start == r.value.end
  {
    match SplitOnce(s)
    case Some((a, b)) =>
      (match parse(a)
       case Err(e) => Err(e)
       case Ok(start) =>
         match parse(b)
         case Err(e) => Err(e)
         case Ok(end) => Ok(CliRange(start, end)))
    case None =>
      match parse(s)
      case Err(e) => Err(e)
      case Ok(start) => Ok(CliRange(start, start))
  }

  /**
   * With a separator: the text is cut at the first `..`; `start` comes from
   * the prefix and `end` from the suffix, and an error in either is returned
   * (the prefix's first).
   */
  lemma FromStrWithSeparator<T, E>(s: string, parse: string -> Result<T, E>, i: nat)
    requires SeparatorAt(s, i) && forall j :: 0 <= j < i ==> !SeparatorAt(s, j)
    ensures parse(s[..i]).Err? ==> FromStr(s, parse) == Err(parse(s[..i]).error)
    ensures parse(s[..i]).Ok? && parse(s[i + 2..]).Err? ==> FromStr(s, parse) == Err(parse(s[i + 2..]).error)
    ensures parse(s[..i]).Ok? && parse(s[i + 2..]).Ok? ==>
              FromStr(s, parse) == Ok(CliRange(parse(s[..i]).value, parse(s[i + 2..]).value))
  {
    var r := FirstSeparator(s);
    assert r.Some?;
    assert i < r.value ==> !SeparatorAt(s, i);
  }

  /** Without a separator: the whole text is parsed once and both ends are that value. */
  lemma FromStrWithoutSeparator<T, E>(s: string, parse: string -> Result<T, E>)
    requires forall j :: !SeparatorAt(s, j)
    ensures parse(s).Err? ==> FromStr(s, parse) == Err(parse(s).error)
    ensures parse(s).Ok? ==> FromStr(s, parse) == Ok(CliRange(parse(s).value, parse(s).value))
  {
  }

  /**
   * Joining two texts with `..` and parsing gives back the two elements,
   * provided the first text has no `..` of its own and does not end in `.`
   * (otherwise the first `..` would fall elsewhere).
   */
  lemma JoinThenParse<T, E>(a: string, b: string, parse: string -> Result<T, E>)
    requires forall j :: !SeparatorAt(a, j)
    requires a == [] || a[|a| - 1] != '.'
    requires parse(a).Ok? && parse(b).Ok?
    ensures FromStr(a + ".." + b, parse) == Ok(CliRange(parse(a).value, parse(b).value))
  {
    var s := a + ".." + b;
    assert SeparatorAt(s, |a|);
    forall j | 0 <= j < |a|
      ensures !SeparatorAt(s, j)
    {
      if j + 1 < |a| {
        assert !SeparatorAt(a, j);
      }
    }
    assert s[..|a|] == a && s[|a| + 2..] == b;
    FromStrWithSeparator(s, parse, |a|);
  }

  /**
   * `CliRange::gen`: exactly `start` when the ends are equal, otherwise a
   * draw from the half-open range `[start, end)`, which panics when empty.
   */
  method Gen(r: CliRange<int>) returns (v: Sample<int>)
    ensures r.start == r.end ==> v == Sampled(r.start)
    ensures r.start < r.end ==> v.Sampled? && r.start <= v.value < r.end
    ensures r.start > r.end ==> v == Panicked
  {
    if r.start == r.end {
      return Sampled(r.start);
    }
    if r.start < r.end {
      var x :| r.start <= x < r.end;
      return Sampled(x);
    }
    return Panicked;
  }

  /** One more than the largest `u64`. */
  const U64_LIMIT: nat := 0x1_0000_0000_0000_0000

  /** `n as u64`: keeps the low 64 bits of a nanosecond count. */
  function AsU64(n: nat): (r: nat)
    ensures r < U64_LIMIT
    ensures n < U64_LIMIT ==> r == n
  {
    n % U64_LIMIT
  }

  /**
   * `CliRange::gen_duration` on nanosecond counts: the draw is made on the
   * `u128` nanosecond counts of the two ends and converted back with
   * `Duration::from_nanos(n as u64)`.
   */
  method GenDuration(r: CliRange<nat>) returns (d: Sample<nat>)
    ensures r.start == r.end ==> d == Sampled(AsU64(r.start))
    ensures r.start < r.end ==> d.Sampled? && exists n :: r.start <= n < r.end && d.value == AsU64(n)
    ensures r.start < r.end <= U64_LIMIT ==> d.Sampled? && r.start <= d.value < r.end
    ensures r.start > r.end ==> d == Panicked
  {
    var start, end := r.start, r.end;
    if start == end {
      return Sampled(AsU64(start));
    }
    if start < end {
      var nanos :| start <= nanos < end;
      return Sampled(AsU64(nanos));
    }
    return Panicked;
  }
}
