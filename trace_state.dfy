/**
 * The tracestate header as TraceContext reads and writes it: the list is
 * split on ',', each element on '=' with the parts trimmed, and only
 * elements of exactly two parts whose key is not the component's name are
 * added to the sorted dictionary; everything else is skipped.  Writing
 * joins the entries, in key order, as key=value with ','.
 */
module TraceState {
  import opened Wrappers
  import opened DotNet
  import opened SortedDictionary

  /** The state dictionary; a value is null only when OverrideState was given null. */
  type State = Entries<Option<string>>

  /** The key and value one element contributes, or None when it is skipped. */
  function Element(element: string, componentName: Option<string>): (r: Option<(string, string)>)
    ensures r.Some? ==> !EqualsOrdinalIgnoreCase(r.value.0, componentName)
  {
    var parts := Split(element, '=');
    if |parts| == 2 && !EqualsOrdinalIgnoreCase(Trim(parts[0]), componentName) then
      Some((Trim(parts[0]), Trim(parts[1])))
    else None
  }

  /** The trimmed text on either side of index i, unless the trimmed left side is the component's name. */
  function SidesAt(element: string, i: nat, componentName: Option<string>): Option<(string, string)>
    requires i < |element|
  {
    if EqualsOrdinalIgnoreCase(Trim(element[..i]), componentName) then None
    else Some((Trim(element[..i]), Trim(element[i + 1..])))
  }

  /**
   * An element with exactly one '=', at index i, yields the trimmed text on
   * either side of it, unless the trimmed key is the component's name.
   */
  lemma ElementAt(element: string, i: nat, componentName: Option<string>)
    requires i < |element| && element[i] == '='
    requires Free(element[..i], '=') && Free(element[i + 1..], '=')
    ensures Element(element, componentName) == SidesAt(element, i, componentName)
  {
    var a, t := element[..i], element[i + 1..];
    assert element == a + ['='] + t;
    SplitAfterFree(a, t, '=');
    SplitFree(t, '=');
    var parts := Split(element, '=');
    assert parts == [a, t];
    assert |parts| == 2 && parts[0] == a && parts[1] == t;
  }

  /** An element with no '=' or with two or more is skipped. */
  lemma ElementSkips(element: string, componentName: Option<string>)
    requires Count(element, '=') != 1
    ensures Element(element, componentName) == None
  {
    SplitCount(element, '=');
  }

  /** An element without '=', such as "foo" or "", is skipped. */
  lemma ElementWithoutSeparator(element: string, componentName: Option<string>)
    requires Free(element, '=')
    ensures Element(element, componentName) == None
  {
    FreeCount(element, '=');
    ElementSkips(element, componentName);
  }

  /** An element with two '=', such as "a=b=c", is skipped. */
  lemma ElementWithTwoSeparators(element: string, i: nat, j: nat, componentName: Option<string>)
    requires i < j < |element| && element[i] == '=' && element[j] == '='
    ensures Element(element, componentName) == None
  {
    TwoCount(element, '=', i, j);
    ElementSkips(element, componentName);
  }

  /**
   * Which elements are accepted, in terms of their text: exactly those with
   * one '=' whose trimmed left side is not the name, giving the trimmed
   * text on either side of the '='.
   */
  function ElementByText(element: string, componentName: Option<string>): Option<(string, string)> {
    var i := IndexOf(element, '=');
    if Count(element, '=') == 1 && i < |element| then SidesAt(element, i, componentName) else None
  }

  /** Element, which splits on '=' and trims, decides every element as ElementByText does. */
  lemma {:induction false} ElementIff(element: string, componentName: Option<string>)
    ensures Element(element, componentName) == ElementByText(element, componentName)
  {
    if Count(element, '=') == 1 {
      ElementIffOne(element, componentName);
    } else {
      ElementSkips(element, componentName);
    }
  }

  /** The case of ElementIff with exactly one '='. */
  lemma {:induction false} ElementIffOne(element: string, componentName: Option<string>)
    requires Count(element, '=') == 1
    ensures Element(element, componentName) == ElementByText(element, componentName)
  {
    CountOne(element, '=');
    ElementAt(element, IndexOf(element, '='), componentName);
  }

  /** The decision for every element of the list, in order. */
  function Elements(elements: seq<string>, componentName: Option<string>): (ds: seq<Option<(string, string)>>)
    ensures |ds| == |elements|
    ensures forall i :: 0 <= i < |ds| ==> ds[i] == Element(elements[i], componentName)
    ensures forall i :: 0 <= i < |ds| && ds[i].Some? ==> !EqualsOrdinalIgnoreCase(ds[i].value.0, componentName)
  {
    seq(|elements|, i requires 0 <= i < |elements| => Element(elements[i], componentName))
  }

  /** The entries the accepted elements contribute, in order. */
  function Accepted(ds: seq<Option<(string, string)>>): State {
    if |ds| == 0 then []
    else if ds[0].None? then Accepted(ds[1..])
    else [(ds[0].value.0, Some(ds[0].value.1))] + Accepted(ds[1..])
  }

  /**
   * The foreach loop of TryparseTraceState, one decision per element: Add
   * each accepted element in turn; the first Add that throws stops the
   * loop, with the entries added before it left in place.
   */
  function AddElements(m: State, ds: seq<Option<(string, string)>>): (r: (State, Outcome<Exception>))
    requires Sorted(m)
    ensures Sorted(r.0)
    decreases |ds|
  {
    if |ds| == 0 then (m, Pass)
    else if ds[0].None? then AddElements(m, ds[1..])
    else
      match Add(m, Some(ds[0].value.0), Some(ds[0].value.1))
      case Failure(e) => (m, Fail(e))
      case Success(m') => AddElements(m', ds[1..])
  }

  /** One pass of the loop at index i: the decision ds[i], then the decisions after it. */
  lemma AddElementsStep(m: State, ds: seq<Option<(string, string)>>, i: nat)
    requires Sorted(m) && i < |ds|
    ensures ds[i].None? ==> AddElements(m, ds[i..]) == AddElements(m, ds[i + 1..])
    ensures ds[i].Some? && Add(m, Some(ds[i].value.0), Some(ds[i].value.1)).Failure? ==>
              AddElements(m, ds[i..]) == (m, Fail(Add(m, Some(ds[i].value.0), Some(ds[i].value.1)).error))
    ensures ds[i].Some? && Add(m, Some(ds[i].value.0), Some(ds[i].value.1)).Success? ==>
              AddElements(m, ds[i..]) == AddElements(Add(m, Some(ds[i].value.0), Some(ds[i].value.1)).value, ds[i + 1..])
  {
    assert ds[i..][0] == ds[i] && ds[i..][1..] == ds[i + 1..];
  }

  /** TryparseTraceState: a null or blank header adds nothing; otherwise every element of the list is offered. */
  function Parse(m: State, tracestate: Option<string>, componentName: Option<string>): (r: (State, Outcome<Exception>))
    requires Sorted(m)
    ensures Sorted(r.0)
    ensures IsNullOrWhiteSpace(tracestate) ==> r == (m, Pass)
  {
    if IsNullOrWhiteSpace(tracestate) then (m, Pass)
    else AddElements(m, Elements(Split(tracestate.value, ','), componentName))
  }

  /** A malformed tracestate is not rejected: an element with two '=' is skipped and nothing is added. */
  lemma MalformedElementSkipped()
    ensures Parse([], Some("foo=bar=baz"), Some("test")) == ([], Pass)
  {
    var element := "foo=bar=baz";
    ElementWithTwoSeparators(element, 3, 7, Some("test"));
    assert !IsWhiteSpace(element[0]);
    MalformedElementHasNoComma();
    SplitFree(element, ',');
  }

  /** The list "foo=bar=baz" is a single element. */
  lemma MalformedElementHasNoComma()
    ensures Free("foo=bar=baz", ',')
  {
    var element := "foo=bar=baz";
    forall j | 0 <= j < |element| ensures element[j] != ',' {
      assert element[j] in {'f', 'o', '=', 'b', 'a', 'r', 'z'};
    }
  }

  /** The accepted keys are pairwise distinct and none is already in m. */
  predicate FreshKeys(acc: State, m: State) {
    && (forall i :: 0 <= i < |acc| ==> Lookup(m, acc[i].0).None?)
    && (forall i, j :: 0 <= i < j < |acc| ==> acc[i].0 != acc[j].0)
  }

  lemma FreshKeysCons(e: (string, Option<string>), acc: State, m: State)
    requires Sorted(m) && Lookup(m, e.0).None?
    ensures FreshKeys([e] + acc, m) <==> FreshKeys(acc, Put(m, e.0, e.1))
  {
    var all := [e] + acc;
    var m' := Put(m, e.0, e.1);
    if FreshKeys(all, m) {
      forall i | 0 <= i < |acc| ensures Lookup(m', acc[i].0).None? {
        assert all[0] == e && all[i + 1] == acc[i];
      }
      forall i, j | 0 <= i < j < |acc| ensures acc[i].0 != acc[j].0 {
        assert all[i + 1] == acc[i] && all[j + 1] == acc[j];
      }
    }
    if FreshKeys(acc, m') {
      forall i | 0 <= i < |all| ensures Lookup(m, all[i].0).None? {
        if i > 0 { assert all[i] == acc[i - 1]; }
      }
      forall i, j | 0 <= i < j < |all| ensures all[i].0 != all[j].0 {
        assert all[j] == acc[j - 1];
        if i > 0 { assert all[i] == acc[i - 1]; }
      }
    }
  }

  /**
   * The loop runs to the end exactly when no accepted key repeats and none
   * is already present; otherwise Add throws ArgumentException.
   */
  lemma {:induction false} AddElementsOutcome(m: State, ds: seq<Option<(string, string)>>)
    requires Sorted(m)
    ensures AddElements(m, ds).1 == Pass <==> FreshKeys(Accepted(ds), m)
    ensures AddElements(m, ds).1 != Pass ==> AddElements(m, ds).1 == Fail(ArgumentException)
    decreases |ds|
  {
    if |ds| > 0 {
      var rest := ds[1..];
      if ds[0].None? {
        AddElementsOutcome(m, rest);
      } else {
        var e := (ds[0].value.0, Some(ds[0].value.1));
        assert Accepted(ds) == [e] + Accepted(rest);
        if Lookup(m, e.0).Some? {
          assert ([e] + Accepted(rest))[0] == e;
        } else {
          AddElementsOutcome(Put(m, e.0, e.1), rest);
          FreshKeysCons(e, Accepted(rest), m);
        }
      }
    }
  }

  /**
   * When the loop runs to the end, every accepted element is in the
   * dictionary with its trimmed value, and every other key keeps what it had.
   */
  lemma {:induction false} AddElementsContents(m: State, ds: seq<Option<(string, string)>>)
    requires Sorted(m)
    requires AddElements(m, ds).1 == Pass
    ensures forall k :: Lookup(AddElements(m, ds).0, k)
                        == if Lookup(Accepted(ds), k).Some? then Lookup(Accepted(ds), k) else Lookup(m, k)
    decreases |ds|
  {
    if |ds| > 0 {
      var rest := ds[1..];
      if ds[0].None? {
        AddElementsContents(m, rest);
      } else {
        var e := (ds[0].value.0, Some(ds[0].value.1));
        var m' := Put(m, e.0, e.1);
        AddElementsContents(m', rest);
        AddElementsOutcome(m', rest);
        LookupMissing(Accepted(rest), e.0);
        assert Accepted(ds) == [e] + Accepted(rest);
      }
    }
  }

  /**
   * A key that equals the component's name, ignoring ASCII case, is never
   * written by the loop, whether it runs to the end or throws.
   */
  lemma {:induction false} AddElementsSparesComponent(m: State, ds: seq<Option<(string, string)>>, componentName: Option<string>, k: string)
    requires Sorted(m)
    requires forall i :: 0 <= i < |ds| && ds[i].Some? ==> !EqualsOrdinalIgnoreCase(ds[i].value.0, componentName)
    requires EqualsOrdinalIgnoreCase(k, componentName)
    ensures Lookup(AddElements(m, ds).0, k) == Lookup(m, k)
    decreases |ds|
  {
    if |ds| > 0 {
      var rest := ds[1..];
      assert forall i :: 0 <= i < |rest| ==> rest[i] == ds[i + 1];
      if ds[0].None? {
        AddElementsSparesComponent(m, rest, componentName, k);
      } else if Lookup(m, ds[0].value.0).None? {
        AddElementsSparesComponent(Put(m, ds[0].value.0, Some(ds[0].value.1)), rest, componentName, k);
      }
    }
  }

  /** A tracestate header never changes the entry of a key equal to the component's name, ignoring case. */
  lemma ParseSparesComponent(m: State, tracestate: Option<string>, componentName: Option<string>, k: string)
    requires Sorted(m)
    requires EqualsOrdinalIgnoreCase(k, componentName)
    ensures Lookup(Parse(m, tracestate, componentName).0, k) == Lookup(m, k)
  {
    if !IsNullOrWhiteSpace(tracestate) {
      AddElementsSparesComponent(m, Elements(Split(tracestate.value, ','), componentName), componentName, k);
    }
  }

  /** A null value is written as nothing, as string interpolation does. */
  function Text(v: Option<string>): string {
    if v.Some? then v.value else ""
  }

  /** One entry as key=value. */
  function EntryText(e: (string, Option<string>)): string {
    e.0 + "=" + Text(e.1)
  }

  function EntryTexts(m: State): (r: seq<string>)
    ensures |r| == |m| && forall i :: 0 <= i < |m| ==> r[i] == EntryText(m[i])
  {
    if |m| == 0 then [] else [EntryText(m[0])] + EntryTexts(m[1..])
  }

  /** The outgoing tracestate: the entries in dictionary order joined with ','. */
  function Render(m: State): string {
    Join(EntryTexts(m), ',')
  }

  lemma {:induction false} JoinPrefix(parts: seq<string>, sep: char)
    requires |parts| > 0
    ensures |Join(parts, sep)| >= |parts[0]| && Join(parts, sep)[..|parts[0]|] == parts[0]
  {
    if |parts| > 1 {
      assert Join(parts, sep) == parts[0] + ([sep] + Join(parts[1..], sep));
    }
  }

  /** The outgoing tracestate is empty exactly when the dictionary is. */
  lemma RenderEmpty(m: State)
    ensures Render(m) == "" <==> |m| == 0
  {
    if |m| > 0 {
      JoinPrefix(EntryTexts(m), ',');
      assert |EntryText(m[0])| > 0;
    }
  }

  /** Keys and values the header can carry unchanged: no ',' or '=', nothing to trim. */
  predicate Clean(t: string) {
    Trimmed(t) && Free(t, ',') && Free(t, '=')
  }

  /** The entries a rendered dictionary must hold for a re-read to give it back. */
  predicate Rereadable(m: State, componentName: Option<string>) {
    forall i :: 0 <= i < |m| ==>
      m[i].1.Some? && Clean(m[i].0) && Clean(m[i].1.value) && !EqualsOrdinalIgnoreCase(m[i].0, componentName)
  }

  lemma ElementOfEntry(e: (string, Option<string>), componentName: Option<string>)
    requires e.1.Some? && Clean(e.0) && Clean(e.1.value) && !EqualsOrdinalIgnoreCase(e.0, componentName)
    ensures Element(EntryText(e), componentName) == Some((e.0, e.1.value))
  {
    assert EntryText(e) == Join([e.0, e.1.value], '=');
    SplitJoin([e.0, e.1.value], '=');
  }

  /** The decisions a re-read makes on the entries of m, when it accepts every one. */
  function Rendered(m: State): (ds: seq<Option<(string, string)>>)
    ensures |ds| == |m| && forall i :: 0 <= i < |m| ==> ds[i] == Some((m[i].0, Text(m[i].1)))
  {
    if |m| == 0 then [] else [Some((m[0].0, Text(m[0].1)))] + Rendered(m[1..])
  }

  lemma ElementsOfRendered(m: State, componentName: Option<string>)
    requires Rereadable(m, componentName)
    ensures Elements(EntryTexts(m), componentName) == Rendered(m)
  {
    forall i | 0 <= i < |m| ensures Element(EntryTexts(m)[i], componentName) == Rendered(m)[i] {
      ElementOfEntry(m[i], componentName);
    }
  }

  lemma AddGreatest(p: State, e: (string, Option<string>))
    requires Sorted(p)
    requires forall j :: 0 <= j < |p| ==> Less(p[j].0, e.0)
    ensures Add(p, Some(e.0), e.1) == Success(p + [e])
  {
    forall j | 0 <= j < |p| ensures p[j].0 != e.0 {
      LessIrreflexive(e.0);
    }
    LookupMissing(p, e.0);
    PutGreatest(p, e.0, e.1);
  }

  /** In a sorted p + q, the first entry of q is above every entry of p. */
  lemma SortedSplit(p: State, q: State)
    requires Sorted(p + q) && |q| > 0
    ensures forall j :: 0 <= j < |p| ==> Less(p[j].0, q[0].0)
    ensures Sorted(p + [q[0]]) && Sorted(q[1..])
    ensures (p + [q[0]]) + q[1..] == p + q
  {
    var pq := p + q;
    forall j | 0 <= j < |p| ensures Less(p[j].0, q[0].0) {
      assert p[j] == pq[j] && q[0] == pq[|p|];
    }
    assert p + [q[0]] == pq[..|p| + 1];
    assert q[1..] == pq[|p| + 1..];
  }

  /** Offering the entries of q, in order, to p gives p + q when p + q is sorted. */
  lemma {:induction false} AddSortedTail(p: State, q: State)
    requires Sorted(p) && Sorted(p + q)
    requires forall i :: 0 <= i < |q| ==> q[i].1.Some?
    ensures AddElements(p, Rendered(q)) == (p + q, Pass)
    decreases |q|
  {
    if |q| == 0 {
      assert p + q == p;
    } else {
      var e := q[0];
      SortedSplit(p, q);
      AddGreatest(p, e);
      assert Rendered(q) == [Some((e.0, e.1.value))] + Rendered(q[1..]);
      assert Rendered(q)[1..] == Rendered(q[1..]);
      AddSortedTail(p + [e], q[1..]);
    }
  }

  /**
   * Reading back an outgoing tracestate, into an empty dictionary, gives
   * the same dictionary, as long as its keys and values are clean, no value
   * is null and no key is the reader's own name.
   */
  lemma RenderParse(m: State, componentName: Option<string>)
    requires Sorted(m) && Rereadable(m, componentName)
    ensures Parse([], Some(Render(m)), componentName) == (m, Pass)
  {
    if |m| == 0 {
      assert Render(m) == "";
    } else {
      var texts := EntryTexts(m);
      JoinPrefix(texts, ',');
      var k := m[0].0;
      assert Render(m)[|k|] == texts[0][|k|] == '=';
      assert !IsNullOrWhiteSpace(Some(Render(m)));
      forall i | 0 <= i < |texts| ensures Free(texts[i], ',') {
        assert texts[i] == m[i].0 + "=" + m[i].1.value;
      }
      SplitJoin(texts, ',');
      ElementsOfRendered(m, componentName);
      AddSortedTail([], m);
      assert [] + m == m;
    }
  }
}
