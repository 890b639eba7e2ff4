/**
 * TraceContext: one span's trace identity and its tracestate dictionary.
 * The constructor parses the incoming traceparent and, when that matched,
 * the incoming tracestate; GetOutgoingHeaderValues writes both headers;
 * OverrideState replaces the component's own entry.
 *
 * The random bytes of GetRandomBytes are parameters; the private parse
 * helpers read the component's name from the field, as the code does.
 */
module Tracing {
  import opened Wrappers
  import opened DotNet
  import opened ByteConverter
  import opened SortedDictionary
  import TraceParent
  import TraceState

  /** The properties and the dictionary that TryParseTraceParent may assign. */
  datatype Fields = Fields(
    version: byte,
    traceId: Option<seq<byte>>,
    parentSpanId: Option<seq<byte>>,
    traceFlags: byte,
    traceState: TraceState.State)

  /** The traceparent as TryParseTraceParent sees it: no match for null or blank text, else the pattern's. */
  function MatchHeader(traceparent: Option<string>): (m: Option<TraceParent.Groups>)
    ensures m.Some? <==> traceparent.Some? && TraceParent.Match(traceparent.value).Some?
    ensures m.Some? ==> m == TraceParent.Match(traceparent.value)
  {
    if traceparent.Some? && TraceParent.Match(traceparent.value).Some? then
      assert !IsWhiteSpace(traceparent.value[2]);
      assert !IsNullOrWhiteSpace(traceparent);
      TraceParent.Match(traceparent.value)
    else if IsNullOrWhiteSpace(traceparent) then None
    else TraceParent.Match(traceparent.value)
  }

  /**
   * TryParseTraceParent as a function of the fields before it runs: the
   * fields after it, and what it returns or throws.  On a match the header
   * goes into the dictionary under the component's name first, then the
   * version, trace id, parent id and flags are assigned in turn; an
   * exception leaves whatever was assigned before it.  Without a match the
   * defaults are assigned and the dictionary is left alone.
   */
  function ParseTraceParent(f: Fields, traceparent: Option<string>, componentName: Option<string>, traceBytes: seq<byte>,
                            base: TraceParent.TokenBase): (r: (Fields, Result<bool, Exception>))
    requires Sorted(f.traceState)
    ensures Sorted(r.0.traceState)
  {
    match MatchHeader(traceparent)
    case None =>
      (f.(version := 1, traceId := Some(traceBytes), parentSpanId := None, traceFlags := 0), Success(false))
    case Some(g) =>
      match Add(f.traceState, componentName, Some(traceparent.value))
      case Failure(e) => (f, Failure(e))
      case Success(st) =>
        var f1 := f.(traceState := st);
        match TraceParent.ReadToken(g.version, base)
        case Failure(e) => (f1, Failure(e))
        case Success(v) =>
          var f2 := f1.(version := v);
          match DecodeHex(g.traceId)
          case Failure(e) => (f2, Failure(e))
          case Success(tid) =>
            var f3 := f2.(traceId := Some(tid));
            match DecodeHex(g.parentId)
            case Failure(e) => (f3, Failure(e))
            case Success(pid) =>
              var f4 := f3.(parentSpanId := Some(pid));
              match TraceParent.ReadToken(g.flags, base)
              case Failure(e) => (f4, Failure(e))
              case Success(fl) => (f4.(traceFlags := fl), Success(true))
  }

  /** Both tokens of a traceparent can be read in the given base. */
  predicate TokensRead(g: TraceParent.Groups, base: TraceParent.TokenBase)
    requires TraceParent.WellFormed(g)
  {
    TraceParent.ReadToken(g.version, base).Success? && TraceParent.ReadToken(g.flags, base).Success?
  }

  /**
   * On a match, the parse returns true exactly when the name is not null,
   * not already a key, and both tokens can be read; then the trace id and
   * parent id are the 16 and 8 bytes their hex groups spell, and the
   * dictionary gains the unmodified header under the name and nothing else.
   * A null name throws ArgumentNullException, a name already present
   * ArgumentException, a hex letter in a token read as decimal FormatException.
   */
  lemma ParseTraceParentMatched(f: Fields, traceparent: Option<string>, componentName: Option<string>, traceBytes: seq<byte>,
                                base: TraceParent.TokenBase)
    requires Sorted(f.traceState) && MatchHeader(traceparent).Some?
    ensures var g := MatchHeader(traceparent).value;
      var (f', r) := ParseTraceParent(f, traceparent, componentName, traceBytes, base);
      && (r.Success? <==> componentName.Some? && Lookup(f.traceState, componentName.value).None? && TokensRead(g, base))
      && (r.Failure? ==> r.error == (if componentName.None? then ArgumentNullException
                                     else if Lookup(f.traceState, componentName.value).Some? then ArgumentException
                                     else FormatException))
      && (r.Success? ==>
            && r.value
            && f'.version == TraceParent.ReadToken(g.version, base).value
            && f'.traceFlags == TraceParent.ReadToken(g.flags, base).value
            && f'.traceId.Some? && |f'.traceId.value| == 16
            && (forall k :: 0 <= k < 16 ==> f'.traceId.value[k] == 16 * HexValue(g.traceId[2 * k]) + HexValue(g.traceId[2 * k + 1]))
            && f'.parentSpanId.Some? && |f'.parentSpanId.value| == 8
            && (forall k :: 0 <= k < 8 ==> f'.parentSpanId.value[k] == 16 * HexValue(g.parentId[2 * k]) + HexValue(g.parentId[2 * k + 1]))
            && Sorted(f'.traceState)
            && forall k :: Lookup(f'.traceState, k) == if k == componentName.value then Some(traceparent) else Lookup(f.traceState, k))
  {
    var g := MatchHeader(traceparent).value;
    DecodeHexPairs(g.traceId);
    DecodeHexPairs(g.parentId);
  }

  /**
   * With the name still null, as it is while the constructor parses, every
   * traceparent the pattern matches ends in ArgumentNullException.
   */
  lemma NullNameRejectsEveryMatch(f: Fields, traceparent: Option<string>, traceBytes: seq<byte>, base: TraceParent.TokenBase)
    requires Sorted(f.traceState) && MatchHeader(traceparent).Some?
    ensures ParseTraceParent(f, traceparent, None, traceBytes, base).1 == Failure(ArgumentNullException)
  {
  }

  /**
   * With the name still null the Add throws before either token is read,
   * so the decimal reading only shows once the name is stored first.
   */
  lemma TokenBaseHiddenByNullName(f: Fields, traceparent: Option<string>, traceBytes: seq<byte>)
    requires Sorted(f.traceState)
    ensures ParseTraceParent(f, traceparent, None, traceBytes, TraceParent.Decimal)
            == ParseTraceParent(f, traceparent, None, traceBytes, TraceParent.Hexadecimal)
  {
  }

  /**
   * Re-reading a header this codec wrote, under a known name and with an
   * empty dictionary, with the tokens read in decimal as the code reads
   * them: it succeeds exactly when neither X2 token contains a letter; then
   * the trace id comes back, the writer's span id becomes the parent id,
   * the dictionary holds just name -> header (written out as name=header),
   * and version and flags come back only when below 10.
   */
  lemma ReparseOwnHeader(f: Fields, version: byte, traceId: seq<byte>, spanId: seq<byte>, flags: byte, name: string, traceBytes: seq<byte>)
    requires |traceId| == 16 && |spanId| == 8 && f.traceState == []
    ensures var header := TraceParent.Format(version, traceId, spanId, flags);
      var (f', r) := ParseTraceParent(f, Some(header), Some(name), traceBytes, TraceParent.Decimal);
      && (r.Success? <==> version / 16 < 10 && version % 16 < 10 && flags / 16 < 10 && flags % 16 < 10)
      && (r.Success? ==>
            && f'.traceId == Some(traceId) && f'.parentSpanId == Some(spanId)
            && f'.traceState == [(name, Some(header))]
            && TraceState.Render(f'.traceState) == name + "=" + header
            && (f'.version == version <==> version < 10)
            && (f'.traceFlags == flags <==> flags < 10))
  {
    var header := TraceParent.Format(version, traceId, spanId, flags);
    TraceParent.FormatLayout(version, traceId, spanId, flags);
    TraceParent.DecimalRereadOfX2(version);
    TraceParent.DecimalRereadOfX2(flags);
    DecodeEncode(traceId);
    DecodeEncode(spanId);
    assert Lookup(f.traceState, name) == None;
  }

  /**
   * The same re-reading with the tokens read in base 16: it always
   * succeeds and gives back the version, the flags and the trace id, with
   * the writer's span id as the parent id.
   */
  lemma ReparseOwnHeaderCorrected(f: Fields, version: byte, traceId: seq<byte>, spanId: seq<byte>, flags: byte, name: string, traceBytes: seq<byte>)
    requires |traceId| == 16 && |spanId| == 8 && f.traceState == []
    ensures var header := TraceParent.Format(version, traceId, spanId, flags);
      var (f', r) := ParseTraceParent(f, Some(header), Some(name), traceBytes, TraceParent.Hexadecimal);
      && r == Success(true)
      && f' == Fields(version, Some(traceId), Some(spanId), flags, [(name, Some(header))])
  {
    TraceParent.FormatLayout(version, traceId, spanId, flags);
    TraceParent.HexRereadOfX2(version);
    TraceParent.HexRereadOfX2(flags);
    DecodeEncode(traceId);
    DecodeEncode(spanId);
    assert Lookup(f.traceState, name) == None;
  }

  /**
   * With the name set before the parse, as in NewCorrected, the
   * component's entry after both headers are read is exactly the incoming traceparent,
   * whatever the incoming tracestate says about that name.
   */
  lemma OwnEntryIsIncomingHeader(traceparent: string, tracestate: Option<string>, name: string, traceBytes: seq<byte>)
    requires MatchHeader(Some(traceparent)).Some?
    ensures var (f, r) := ParseTraceParent(Fields(0, None, None, 0, []), Some(traceparent), Some(name), traceBytes, TraceParent.Hexadecimal);
      r.Success? ==> Lookup(TraceState.Parse(f.traceState, tracestate, Some(name)).0, name) == Some(Some(traceparent))
  {
    var (f, r) := ParseTraceParent(Fields(0, None, None, 0, []), Some(traceparent), Some(name), traceBytes, TraceParent.Hexadecimal);
    if r.Success? {
      ParseTraceParentMatched(Fields(0, None, None, 0, []), Some(traceparent), Some(name), traceBytes, TraceParent.Hexadecimal);
      TraceState.ParseSparesComponent(f.traceState, tracestate, Some(name), name);
    }
  }

  /**
   * Entries leave in key order, not with the component's entry moved to the
   * front: the first entry holds the least key, so the component's entry is
   * first only when no other key sorts before its name.
   */
  lemma NoMoveToFront(m: TraceState.State, name: string, other: string)
    requires Sorted(m) && Lookup(m, name).Some? && Lookup(m, other).Some? && Less(other, name)
    ensures m[0].0 != name
  {
    FirstIsLeast(m, other);
    if m[0].0 == name {
      LessIrreflexive(name);
      if other != name {
        LessTransitive(name, other, name);
      }
    }
  }

  class TraceContext {
    var version: byte
    var traceId: Option<seq<byte>>
    var spanId: seq<byte>
    var parentSpanId: Option<seq<byte>>
    var traceFlags: byte
    /** _traceState, the SortedDictionary. */
    var traceState: TraceState.State
    /** _componentName; None while the constructor parses. */
    var componentName: Option<string>

    function Snapshot(): Fields
      reads this
    {
      Fields(version, traceId, parentSpanId, traceFlags, traceState)
    }

    /** What a constructed context always satisfies. */
    predicate Valid()
      reads this
    {
      && traceId.Some? && |traceId.value| == 16
      && |spanId| == 8
      && (parentSpanId.Some? ==> |parentSpanId.value| == 8)
      && Sorted(traceState)
    }

    /** The field initialisers and the fresh span id: the state when the parse begins. */
    constructor Init(spanBytes: seq<byte>)
      ensures Snapshot() == Fields(0, None, None, 0, [])
      ensures spanId == spanBytes && componentName == None
    {
      version := 0;
      traceId := None;
      spanId := spanBytes;
      parentSpanId := None;
      traceFlags := 0;
      traceState := [];
      componentName := None;
    }

    /**
     * The constructor as written.  The name is stored only after the
     * parse, so a matching traceparent reaches Add with a null key and the
     * construction throws; otherwise the context carries version 1, the
     * fresh trace id, no parent, flags 0 and an empty dictionary, and the
     * tracestate is never read.
     */
    static method New(traceparent: Option<string>, tracestate: Option<string>, componentName: Option<string>,
                      spanBytes: seq<byte>, traceBytes: seq<byte>)
      returns (r: Result<TraceContext, Exception>)
      requires |spanBytes| == 8 && |traceBytes| == 16
      ensures r.Failure? <==> MatchHeader(traceparent).Some?
      ensures r.Failure? ==> r.error == ArgumentNullException
      ensures r.Success? ==>
        && fresh(r.value) && r.value.Valid()
        && r.value.Snapshot() == Fields(1, Some(traceBytes), None, 0, [])
        && r.value.spanId == spanBytes && r.value.componentName == componentName
    {
      var c := new TraceContext.Init(spanBytes);
      var parsed := c.TryParseTraceParent(traceparent, traceBytes, TraceParent.Decimal);
      if parsed.Failure? {
        return Failure(parsed.error);
      }
      if parsed.value {
        // the call TryparseTraceState(tracestate) stands here, but a match has already thrown in Add
        assert false;
      }
      c.componentName := componentName;
      return Success(c);
    }

    /**
     * The constructor as evidently intended: the name is stored before the
     * parse and the version and flags tokens are read in base 16.  The
     * traceparent is parsed under the name and, when it matched, the
     * tracestate is read into the dictionary; the first exception ends the
     * construction.
     */
    static method NewCorrected(traceparent: Option<string>, tracestate: Option<string>, componentName: Option<string>,
                           spanBytes: seq<byte>, traceBytes: seq<byte>)
      returns (r: Result<TraceContext, Exception>)
      requires |spanBytes| == 8 && |traceBytes| == 16
      ensures var (f, p) := ParseTraceParent(Fields(0, None, None, 0, []), traceparent, componentName, traceBytes, TraceParent.Hexadecimal);
        match p
        case Failure(e) => r == Failure(e)
        case Success(matched) =>
          var (st, o) := if matched then TraceState.Parse(f.traceState, tracestate, componentName) else (f.traceState, Pass);
          match o
          case Fail(e) => r == Failure(e)
          case Pass =>
            && r.Success? && fresh(r.value) && r.value.Valid()
            && r.value.Snapshot() == f.(traceState := st)
            && r.value.spanId == spanBytes && r.value.componentName == componentName
    {
      var c := new TraceContext.Init(spanBytes);
      c.componentName := componentName;
      var parsed := c.TryParseTraceParent(traceparent, traceBytes, TraceParent.Hexadecimal);
      if parsed.Failure? {
        return Failure(parsed.error);
      }
      if parsed.value {
        var o := c.TryParseTraceState(tracestate);
        if o.Fail? {
          return Failure(o.error);
        }
      }
      return Success(c);
    }

    /** The two outgoing headers; nothing changes, so every call gives the same pair. */
    function GetOutgoingHeaderValues(): (headers: (string, string))
      reads this
      requires Valid()
      ensures |headers.0| == 55
      ensures TraceParent.Match(headers.0)
              == Some(TraceParent.Groups(X2(version), ByteArrayToString(traceId.value), ByteArrayToString(spanId), X2(traceFlags)))
      ensures headers.1 == "" <==> traceState == []
    {
      TraceParent.FormatLayout(version, traceId.value, spanId, traceFlags);
      TraceState.RenderEmpty(traceState);
      (TraceParent.Format(version, traceId.value, spanId, traceFlags), TraceState.Render(traceState))
    }

    /** Stores state under the component's name, inserting or replacing; a null name throws. */
    method OverrideState(state: Option<string>) returns (r: Outcome<Exception>)
      requires Valid()
      modifies this`traceState
      ensures Valid()
      ensures r.Fail? <==> componentName.None?
      ensures r.Fail? ==> r.error == ArgumentNullException && traceState == old(traceState)
      ensures r.Pass? ==> traceState == Put(old(traceState), componentName.value, state)
      ensures r.Pass? ==> forall k :: Lookup(traceState, k) == if k == componentName.value then Some(state) else Lookup(old(traceState), k)
    {
      var stored := Store(traceState, componentName, state);
      if stored.Failure? {
        return Fail(stored.error);
      }
      traceState := stored.value;
      return Pass;
    }

    /** TryParseTraceParent, statement by statement; the code reads the tokens in decimal. */
    method TryParseTraceParent(traceparent: Option<string>, traceBytes: seq<byte>, base: TraceParent.TokenBase)
      returns (r: Result<bool, Exception>)
      requires Sorted(traceState)
      modifies this`version, this`traceId, this`parentSpanId, this`traceFlags, this`traceState
      ensures (Snapshot(), r) == ParseTraceParent(old(Snapshot()), traceparent, componentName, traceBytes, base)
    {
      if !IsNullOrWhiteSpace(traceparent) {
        var parentMatch := TraceParent.Match(traceparent.value);
        if parentMatch.Some? {
          var g := parentMatch.value;
          var added := Add(traceState, componentName, Some(traceparent.value));
          if added.Failure? {
            return Failure(added.error);
          }
          traceState := added.value;
          var v := TraceParent.ReadToken(g.version, base);
          if v.Failure? {
            return Failure(v.error);
          }
          version := v.value;
          var tid := StringToByteArray(g.traceId);
          if tid.Failure? {
            return Failure(tid.error);
          }
          traceId := Some(tid.value);
          var pid := StringToByteArray(g.parentId);
          if pid.Failure? {
            return Failure(pid.error);
          }
          parentSpanId := Some(pid.value);
          var fl := TraceParent.ReadToken(g.flags, base);
          if fl.Failure? {
            return Failure(fl.error);
          }
          traceFlags := fl.value;
          return Success(true);
        }
      }
      version := 1;
      traceId := Some(traceBytes);
      parentSpanId := None;
      traceFlags := 0;
      return Success(false);
    }

    /** TryparseTraceState, element by element. */
    method TryParseTraceState(tracestate: Option<string>) returns (r: Outcome<Exception>)
      requires Sorted(traceState)
      modifies this`traceState
      ensures (traceState, r) == TraceState.Parse(old(traceState), tracestate, componentName)
    {
      if IsNullOrWhiteSpace(tracestate) {
        return Pass;
      }
      var elements := Split(tracestate.value, ',');
      ghost var ds := TraceState.Elements(elements, componentName);
      var i := 0;
      while i < |elements|
        invariant 0 <= i <= |elements|
        invariant Sorted(traceState)
        invariant TraceState.AddElements(old(traceState), ds) == TraceState.AddElements(traceState, ds[i..])
      {
        var keyValue := Split(elements[i], '=');
        TraceState.AddElementsStep(traceState, ds, i);
        if |keyValue| == 2 && !EqualsOrdinalIgnoreCase(Trim(keyValue[0]), componentName) {
          var added := Add(traceState, Some(Trim(keyValue[0])), Some(Trim(keyValue[1])));
          if added.Failure? {
            return Fail(added.error);
          }
          traceState := added.value;
        }
        i := i + 1;
      }
      assert ds[i..] == [];
      return Pass;
    }
  }
}
