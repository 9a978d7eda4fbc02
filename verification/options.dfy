/**
 The combobox's options: the case- and whitespace-insensitive label
 filter, and the longest-label reduction that sizes the control.
 */
module Options {
  import opened Text

  /** One selectable row: an opaque identifier and the text shown for it
      (the source's `label`; `label` is a keyword in Dafny). */
  datatype Option = Option(value: string, text: string)

  /** What the component itself can fail with. */
  datatype Error =
    | EmptyOptions   // `reduce` of an empty array without an initial value throws a TypeError

  datatype Result<T> = Ok(value: T) | Err(error: Error)

  /** The normal form both sides of the match rule are brought to:
      lower-cased first, then trimmed. */
  function Normalize(s: string): (r: string)
    ensures |r| <= |s|
    ensures r == [] || (!IsWhitespace(r[0]) && !IsWhitespace(r[|r| - 1]))
    ensures forall i :: 0 <= i < |r| ==> !IsUpper(r[i])
    ensures exists i :: TrimmedAt(ToLower(s), r, i)
  {
    Trim(ToLower(s))
  }

  /** The match rule: the option's normalized label contains the
      normalized query somewhere. */
  function Matches(o: Option, query: string): (r: bool)
    ensures r <==> exists k :: OccursAt(Normalize(o.text), Normalize(query), k)
  {
    Includes(Normalize(o.text), Normalize(query))
  }

  /** `a` can be obtained from `b` by deleting elements, keeping the order. */
  ghost predicate IsSubsequence<T>(a: seq<T>, b: seq<T>)
    decreases |b|
  {
    || a == []
    || (b != [] && ((a[0] == b[0] && IsSubsequence(a[1..], b[1..])) || IsSubsequence(a, b[1..])))
  }

  /** `Array.prototype.filter`: exactly the elements `keep` accepts, each
      as many times as it occurs, in their original order. */
  function FilterBy(opts: seq<Option>, keep: Option -> bool): (r: seq<Option>)
    ensures IsSubsequence(r, opts)
    ensures forall o :: multiset(r)[o] == if keep(o) then multiset(opts)[o] else 0
    ensures forall o :: o in r <==> o in opts && keep(o)
    ensures |r| <= |opts|
    decreases |opts|
  {
    if opts == [] then []
    else
      var rest := FilterBy(opts[1..], keep);
      var head := opts[0];
      assert opts == [head] + opts[1..];
      assert multiset(opts) == multiset{head} + multiset(opts[1..]);
      var r := if keep(head) then [head] + rest else rest;
      assert multiset(r) == (if keep(head) then multiset{head} else multiset{}) + multiset(rest);
      assert r != rest ==> r[1..] == rest;
      assert forall o :: o in r <==> multiset(r)[o] > 0;
      r
  }

  /** When every element is accepted, nothing is filtered out. */
  lemma {:induction false} FilterByKeepsAll(opts: seq<Option>, keep: Option -> bool)
    requires forall o :: o in opts ==> keep(o)
    ensures FilterBy(opts, keep) == opts
    decreases |opts|
  {
    if opts != [] {
      FilterByKeepsAll(opts[1..], keep);
      assert opts == [opts[0]] + opts[1..];
    }
  }

  /** Filtering twice with the same test is filtering once. */
  lemma {:induction false} FilterByIdempotent(opts: seq<Option>, keep: Option -> bool)
    ensures FilterBy(FilterBy(opts, keep), keep) == FilterBy(opts, keep)
    decreases |opts|
  {
    if opts != [] {
      FilterByIdempotent(opts[1..], keep);
      var rest := FilterBy(opts[1..], keep);
      if keep(opts[0]) {
        assert ([opts[0]] + rest)[1..] == rest;
      }
    }
  }

  /** The match rule as a test on options, for a fixed query. */
  function MatchesQuery(query: string): Option -> bool {
    o => Matches(o, query)
  }

  /** The filter of lines 131-133: the options whose label matches the
      query, each as many times as it occurs, in their original order. */
  function Filter(opts: seq<Option>, query: string): (r: seq<Option>)
    ensures IsSubsequence(r, opts)
    ensures forall o :: multiset(r)[o] == if Matches(o, query) then multiset(opts)[o] else 0
    ensures forall o :: o in r <==> o in opts && Matches(o, query)
    ensures |r| <= |opts|
  {
    FilterBy(opts, MatchesQuery(query))
  }

  /** A query that trims to nothing filters nothing out. */
  lemma FilterBlankQuery(opts: seq<Option>, query: string)
    requires Normalize(query) == []
    ensures Filter(opts, query) == opts
  {
    forall o | o in opts
      ensures MatchesQuery(query)(o)
    {
      assert Includes(Normalize(o.text), []);
    }
    FilterByKeepsAll(opts, MatchesQuery(query));
  }

  /** A query whose normal form is longer than a label cannot match it. */
  lemma LongQueryMisses(o: Option, query: string)
    requires |Normalize(query)| > |o.text|
    ensures !Matches(o, query)
  {
  }

  /** Filtering twice with the same query is filtering once. */
  lemma FilterIdempotent(opts: seq<Option>, query: string)
    ensures Filter(Filter(opts, query), query) == Filter(opts, query)
  {
    FilterByIdempotent(opts, MatchesQuery(query));
  }

  /** The index the `reduce` of lines 60-65 ends on.  The accumulator is
      `opts[k]`, and `opts[i]` is the next element; the accumulator is kept
      only when its label is strictly longer, so a later label of equal
      length replaces it. */
  function ReduceLongest(opts: seq<Option>, k: nat, i: nat): (r: nat)
    requires k < i <= |opts|
    requires forall j :: 0 <= j < i ==> |opts[j].text| <= |opts[k].text|
    requires forall j :: k < j < i ==> |opts[j].text| < |opts[k].text|
    ensures r < |opts|
    ensures forall j :: 0 <= j < |opts| ==> |opts[j].text| <= |opts[r].text|
    ensures forall j :: r < j < |opts| ==> |opts[j].text| < |opts[r].text|
    decreases |opts| - i
  {
    if i == |opts| then k
    else if |opts[k].text| > |opts[i].text| then ReduceLongest(opts, k, i + 1)
    else ReduceLongest(opts, i, i + 1)
  }

  /** The option with the longest label, or the TypeError of an empty
      array.  Among options of equal, longest label, the last one wins. */
  function FindLongestLabel(opts: seq<Option>): (r: Result<Option>)
    ensures r.Err? <==> opts == []
    ensures r.Ok? ==> r.value in opts
    ensures r.Ok? ==> forall o :: o in opts ==> |o.text| <= |r.value.text|
    ensures r.Ok? ==> exists k :: 0 <= k < |opts| && opts[k] == r.value
                                  && forall j :: k < j < |opts| ==> |opts[j].text| < |opts[k].text|
  {
    if opts == [] then Err(EmptyOptions)
    else
      var k := ReduceLongest(opts, 0, 1);
      Ok(opts[k])
  }

  /** `dynamicWidth`, doubled so that the `8.5` pixels per character of
      line 69 stay integral: 17 half-pixels per character. */
  const HalfPixelsPerChar: nat := 17

  /** The control's width in half-pixels: wide enough for every label, and
      exactly as wide as some label needs. */
  function DynamicWidth(opts: seq<Option>): (r: Result<nat>)
    ensures r.Err? <==> opts == []
    ensures r.Ok? ==> forall o :: o in opts ==> HalfPixelsPerChar * |o.text| <= r.value
    ensures r.Ok? ==> exists o :: o in opts && HalfPixelsPerChar * |o.text| == r.value
  {
    match FindLongestLabel(opts)
    case Err(e) => Err(e)
    case Ok(o) => Ok(HalfPixelsPerChar * |o.text|)
  }

  /** The width is zero, which the component reads as "still loading",
      exactly when every label is empty. */
  lemma {:induction false} WidthZeroIffBlankLabels(opts: seq<Option>)
    requires opts != []
    ensures DynamicWidth(opts) == Ok(0) <==> forall o :: o in opts ==> o.text == []
  {
    var w := DynamicWidth(opts).value;
    if w == 0 {
      forall o | o in opts
        ensures o.text == []
      {
        assert HalfPixelsPerChar * |o.text| <= 0;
      }
    } else {
      var o :| o in opts && HalfPixelsPerChar * |o.text| == w;
      assert o.text != [];
    }
  }
}
