/** The optional value used wherever the scripts return "nothing" (a skipped
    line, an empty roster, a missing file), and the filter that keeps the
    present values of a list of optional ones. */
module Options {

  datatype Option<+T> = None | Some(value: T)

  /** The present values, in order: what a loop that appends every `Some`
      and skips every `None` builds. */
  function Present<T>(opts: seq<Option<T>>): (r: seq<T>)
    ensures |r| <= |opts|
  {
    if |opts| == 0 then []
    else
      var last := opts[|opts| - 1];
      var init := Present(opts[..|opts| - 1]);
      if last.Some? then init + [last.value] else init
  }

  lemma {:induction false} PresentCons<T>(o: Option<T>, opts: seq<Option<T>>)
    ensures Present([o] + opts) == (if o.Some? then [o.value] else []) + Present(opts)
    decreases |opts|
  {
    if |opts| > 0 {
      var init := opts[..|opts| - 1];
      assert ([o] + opts)[..|opts|] == [o] + init;
      PresentCons(o, init);
    }
  }

  /** A value is kept exactly when it is present somewhere in the list:
      nothing is invented and nothing present is dropped. */
  lemma {:induction false} PresentMember<T>(opts: seq<Option<T>>)
    ensures forall x :: x in Present(opts) <==> Some(x) in opts
  {
    if |opts| > 0 {
      var init := opts[..|opts| - 1];
      PresentMember(init);
      assert opts == init + [opts[|opts| - 1]];
    }
  }

  /** The filter works piece by piece over a concatenation, so it keeps
      the order of the list. */
  lemma {:induction false} PresentAppend<T>(a: seq<Option<T>>, b: seq<Option<T>>)
    ensures Present(a + b) == Present(a) + Present(b)
    decreases |b|
  {
    if |b| > 0 {
      var init := b[..|b| - 1];
      assert (a + b)[..|a + b| - 1] == a + init;
      PresentAppend(a, init);
    } else {
      assert a + b == a;
    }
  }

  /** Two present values keep their order: the value at the earlier
      position comes earlier among the values kept. */
  lemma PresentOrder<T>(opts: seq<Option<T>>, i: int, j: int)
    requires 0 <= i < j < |opts| && opts[i].Some? && opts[j].Some?
    ensures exists p, q ::
      0 <= p < q < |Present(opts)| && Present(opts)[p] == opts[i].value && Present(opts)[q] == opts[j].value
  {
    var before, after := opts[..j], opts[j..];
    assert opts == before + after;
    PresentAppend(before, after);
    PresentMember(before);
    assert before[i] == opts[i];
    var p :| 0 <= p < |Present(before)| && Present(before)[p] == opts[i].value;
    assert after == [opts[j]] + after[1..];
    PresentCons(opts[j], after[1..]);
    var q := |Present(before)|;
    assert Present(opts)[p] == opts[i].value && Present(opts)[q] == opts[j].value;
  }

  /** One more element of a prefix adds its value, if present, at the end. */
  lemma PresentSnoc<T>(opts: seq<Option<T>>, i: int)
    requires 0 <= i < |opts|
    ensures Present(opts[..i + 1]) == Present(opts[..i]) + (if opts[i].Some? then [opts[i].value] else [])
  {
    assert opts[..i + 1][..i] == opts[..i];
  }

  /** The filter is empty exactly when no value is present. */
  lemma {:induction false} PresentEmpty<T>(opts: seq<Option<T>>)
    ensures Present(opts) == [] <==> forall i :: 0 <= i < |opts| ==> opts[i].None?
  {
    if |opts| > 0 {
      var init := opts[..|opts| - 1];
      PresentEmpty(init);
      assert forall i :: 0 <= i < |init| ==> init[i] == opts[i];
    }
  }

  /** Nothing is dropped from a list with every value present. */
  lemma {:induction false} PresentOfSomes<T>(xs: seq<T>)
    ensures Present(seq(|xs|, i requires 0 <= i < |xs| => Some(xs[i]))) == xs
  {
    if |xs| > 0 {
      var init := xs[..|xs| - 1];
      PresentOfSomes(init);
      assert seq(|xs|, i requires 0 <= i < |xs| => Some(xs[i]))[..|xs| - 1]
          == seq(|init|, i requires 0 <= i < |init| => Some(init[i]));
    }
  }

  /** A list that starts with a missing value and then holds every element
      of `xs`, in order, filters down to `xs`. */
  lemma PresentAfterNone<T>(opts: seq<Option<T>>, xs: seq<T>)
    requires |opts| == |xs| + 1 && opts[0].None?
    requires forall i :: 0 <= i < |xs| ==> opts[i + 1] == Some(xs[i])
    ensures Present(opts) == xs
  {
    var somes := seq(|xs|, i requires 0 <= i < |xs| => Some(xs[i]));
    assert opts == [opts[0]] + somes;
    PresentCons(opts[0], somes);
    PresentOfSomes(xs);
  }

  /** What each line of a file reads as, position by position, when a line
      is read with `parse`. */
  function ReadLines<T>(lines: seq<string>, parse: (nat, string) -> Option<T>): (rows: seq<Option<T>>)
    ensures |rows| == |lines|
    ensures forall i :: 0 <= i < |lines| ==> rows[i] == parse(i, lines[i])
  {
    seq(|lines|, i requires 0 <= i < |lines| => parse(i, lines[i]))
  }

  /** The reading loop of both file loaders: every line is read with
      `parse`, given its position, and each value read is appended, in
      file order. */
  method ReadEach<T>(lines: seq<string>, parse: (nat, string) -> Option<T>) returns (values: seq<T>)
    ensures values == Present(ReadLines(lines, parse))
  {
    ghost var rows := ReadLines(lines, parse);
    values := [];
    var i := 0;
    while i < |lines|
      invariant 0 <= i <= |lines|
      invariant values == Present(rows[..i])
    {
      var row := parse(i, lines[i]);
      PresentSnoc(rows, i);
      if row.Some? {
        values := values + [row.value];
      }
      i := i + 1;
    }
    assert rows[..i] == rows;
  }
}
