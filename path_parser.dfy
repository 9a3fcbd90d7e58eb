/** The nested-path extractor `_parser` of the Datadog worker.

    A path is a `.`-split list of segments.  `[]` fans out over every
    element of the current value, `[n]` indexes a list, anything else looks
    a key up in a dict.  The Python function appends what it finds to the
    caller's list in place and answers True, False, or raises.
 */
module PathParser {
  import opened Outcomes
  import opened Text
  import opened Values

  /** How a call of `_parser` ends: `return True`, `return False`, or an exception. */
  datatype Status = Returned(ok: bool) | Raised

  /** A call's status together with what it appended to `parse_list`
      before it ended (a fan-out that fails part-way keeps its earlier
      appends). */
  datatype Extraction = Extraction(status: Status, values: seq<Value>)

  const Found := Returned(true)

  predicate Bracketed(k: string) { |k| >= 1 && k[0] == '[' && k[|k| - 1] == ']' }

  /** The segment `[]`. */
  predicate IsFanOut(k: string) { |k| == 2 && Bracketed(k) }

  /** A segment `[...]` with something between the brackets. */
  predicate IsIndex(k: string) { |k| > 2 && Bracketed(k) }

  /** `c.join(xss)` for lists: the concatenation of all parts, in order. */
  function Flatten(xss: seq<seq<Value>>): (r: seq<Value>)
  {
    if xss == [] then [] else xss[0] + Flatten(xss[1..])
  }

  /** The fan-out loop `for dt in data_tmp: ... if not result: return False`:
      runs the element calls in order and stops at the first that does not
      answer True. */
  function Combine(outs: seq<Extraction>): Extraction
  {
    if outs == [] then Extraction(Found, [])
    else if outs[0].status != Found then outs[0]
    else
      var rest := Combine(outs[1..]);
      Extraction(rest.status, outs[0].values + rest.values)
  }

  /** Reference semantics of `_parser(0, v, keys, parse_list)`, by recursion
      on the first segment. */
  function Extract(v: Value, keys: seq<string>): Extraction
    decreases |keys|, 1
  {
    if keys == [] then Extraction(Found, [v])
    else if IsFanOut(keys[0]) then ExtractFanOut(v, keys)
    else if IsIndex(keys[0]) then ExtractIndex(v, keys)
    else ExtractKey(v, keys)
  }

  /** A `[]` segment: one call per member of the current value. */
  function ExtractFanOut(v: Value, keys: seq<string>): Extraction
    requires keys != []
    decreases |keys|, 0
  {
    match Members(v)
    case None => Extraction(Raised, [])
    case Some(elems) =>
      var inner := Combine(ElementCalls(elems, keys[1..]));
      if inner.status == Found && |keys| == 1 then Extraction(Found, inner.values + [v]) else inner
  }

  /** A `[n]` segment. */
  function ExtractIndex(v: Value, keys: seq<string>): Extraction
    requires keys != [] && IsIndex(keys[0])
    decreases |keys|, 0
  {
    var k := keys[0];
    var text := k[1..|k| - 1];
    if !AllDigits(text) then Extraction(Returned(false), [])
    else if v.List? && DigitsValue(text) < |v.items| then Extract(v.items[DigitsValue(text)], keys[1..])
    else if Sized(v) then Extraction(Returned(false), [])
    else Extraction(Raised, [])
  }

  /** A key segment. */
  function ExtractKey(v: Value, keys: seq<string>): Extraction
    requires keys != []
    decreases |keys|, 0
  {
    if v.Dict? && Lookup(v.entries, keys[0]).Some? then Extract(Lookup(v.entries, keys[0]).value, keys[1..])
    else Extraction(Returned(false), [])
  }

  lemma {:induction false} CombineSnoc(outs: seq<Extraction>, i: nat)
    requires i < |outs|
    requires Combine(outs[..i]).status == Found
    ensures Combine(outs[..i + 1]) == Extraction(outs[i].status, Combine(outs[..i]).values + outs[i].values)
  {
    if i == 0 {
      assert outs[..1] == [outs[0]];
      CombineOne(outs[0]);
      assert outs[..0] == [];
    } else {
      assert outs[..i + 1][1..] == outs[1..][..i];
      assert outs[..i][1..] == outs[1..][..i - 1];
      CombineSnoc(outs[1..], i - 1);
      var a, b, c := outs[0].values, Combine(outs[1..][..i - 1]).values, outs[i].values;
      assert a + (b + c) == (a + b) + c;
    }
  }

  /** A single call's outcome passes through unchanged. */
  lemma CombineOne(x: Extraction)
    ensures Combine([x]) == x
  {
    assert [x][1..] == [];
    if x.status == Found {
      assert x.values + [] == x.values;
    }
  }

  lemma {:induction false} CombineStops(outs: seq<Extraction>, i: nat)
    requires i <= |outs|
    requires Combine(outs[..i]).status != Found
    ensures Combine(outs) == Combine(outs[..i])
  {
    if i > 0 && outs[0].status == Found {
      assert outs[..i][1..] == outs[1..][..i - 1];
      CombineStops(outs[1..], i - 1);
    }
  }

  /** The calls one `[]` segment makes: one per element, in order. */
  function ElementCalls(elems: seq<Value>, rest: seq<string>): seq<Extraction>
    decreases |rest|, 2
  {
    seq(|elems|, j requires 0 <= j < |elems| => Extract(elems[j], rest))
  }

  /** `_parser` as the source writes it: a while loop over `key_list[idx..]`
      that advances `data_tmp`, recursing once per element at a `[]`
      segment (in `ParseElements`), and appending to `parse_list` in place
      (here: returning the extended list). */
  method Parse(idx0: nat, data: Value, keyList: seq<string>, parseList: seq<Value>)
    returns (status: Status, parseList': seq<Value>)
    requires idx0 <= |keyList|
    ensures status == Extract(data, keyList[idx0..]).status
    ensures parseList' == parseList + Extract(data, keyList[idx0..]).values
    decreases |keyList| - idx0, 0
  {
    var idx := idx0;
    var dataTmp := data;
    parseList' := parseList;
    while idx < |keyList|
      invariant idx0 <= idx <= |keyList|
      invariant Extract(dataTmp, keyList[idx..]) == Extract(data, keyList[idx0..])
      invariant parseList' == parseList
    {
      var k := keyList[idx];
      var l := |k|;
      assert keyList[idx..][0] == k && keyList[idx..][1..] == keyList[idx + 1..];
      if l == 2 && Bracketed(k) {
        idx := idx + 1;
        match Members(dataTmp) {
          case None =>
            return Raised, parseList';
          case Some(elems) =>
            status, parseList' := ParseElements(idx, elems, keyList, parseList');
            if status != Found {
              return status, parseList';
            }
        }
        break;
      } else if l > 2 && Bracketed(k) {
        if !AllDigits(k[1..l - 1]) {
          return Returned(false), parseList';
        }
        var i := DigitsValue(k[1..l - 1]);
        if !dataTmp.List? || i >= |dataTmp.items| {
          if !Sized(dataTmp) {
            // the log message evaluates len(data_tmp), which raises here
            return Raised, parseList';
          }
          return Returned(false), parseList';
        }
        dataTmp := dataTmp.items[i];
        idx := idx + 1;
      }
      if !Bracketed(k) {
        if !dataTmp.Dict? || Lookup(dataTmp.entries, k).None? {
          return Returned(false), parseList';
        }
        dataTmp := Lookup(dataTmp.entries, k).value;
        idx := idx + 1;
      }
    }
    if idx >= |keyList| {
      parseList' := parseList' + [dataTmp];
    }
    return Found, parseList';
  }

  /** The loop `for dt in data_tmp: result = self._parser(idx, dt, ...)`,
      returning at the first element that does not answer True. */
  method ParseElements(idx: nat, elems: seq<Value>, keyList: seq<string>, parseList: seq<Value>)
    returns (status: Status, parseList': seq<Value>)
    requires idx <= |keyList|
    ensures status == Combine(ElementCalls(elems, keyList[idx..])).status
    ensures parseList' == parseList + Combine(ElementCalls(elems, keyList[idx..])).values
    decreases |keyList| - idx, 1
  {
    ghost var outs := ElementCalls(elems, keyList[idx..]);
    parseList' := parseList;
    var i := 0;
    while i < |elems|
      invariant 0 <= i <= |elems|
      invariant Combine(outs[..i]).status == Found
      invariant parseList' == parseList + Combine(outs[..i]).values
    {
      var st;
      st, parseList' := Parse(idx, elems[i], keyList, parseList');
      CombineSnoc(outs, i);
      if st != Found {
        CombineStops(outs, i + 1);
        return st, parseList';
      }
      i := i + 1;
    }
    assert outs[..|elems|] == outs;
    return Found, parseList';
  }

  /** The lists the element calls appended, in order. */
  function ValuesOf(outs: seq<Extraction>): seq<seq<Value>>
  {
    seq(|outs|, i requires 0 <= i < |outs| => outs[i].values)
  }

  /** The fan-out answers True exactly when every element call does, and
      then it has appended everything every element call appended, in order. */
  lemma {:induction false} CombineFound(outs: seq<Extraction>)
    ensures Combine(outs).status == Found <==> forall i :: 0 <= i < |outs| ==> outs[i].status == Found
    ensures Combine(outs).status == Found ==> Combine(outs).values == Flatten(ValuesOf(outs))
  {
    if outs != [] {
      CombineFound(outs[1..]);
      assert ValuesOf(outs)[1..] == ValuesOf(outs[1..]);
      assert forall i :: 1 <= i < |outs| ==> outs[i] == outs[1..][i - 1];
    }
  }

  /** The first element call that does not answer True decides the answer,
      and what the earlier calls and that one appended stays appended. */
  lemma {:induction false} CombineFirstFailure(outs: seq<Extraction>, i: nat)
    requires i < |outs| && outs[i].status != Found
    requires forall j :: 0 <= j < i ==> outs[j].status == Found
    ensures Combine(outs).status == outs[i].status
    ensures Combine(outs).values == Flatten(ValuesOf(outs[..i + 1]))
  {
    if i == 0 {
      assert ValuesOf(outs[..1]) == [outs[0].values];
    } else {
      CombineFirstFailure(outs[1..], i - 1);
      assert outs[1..][..i] == outs[..i + 1][1..];
      assert ValuesOf(outs[..i + 1])[1..] == ValuesOf(outs[1..][..i]);
    }
  }

  /** A trailing `[]` over a value that cannot be iterated raises. */
  lemma FanOutRaises(v: Value, rest: seq<string>)
    requires Members(v).None?
    ensures Extract(v, ["[]"] + rest) == Extraction(Raised, [])
  {
    assert (["[]"] + rest)[0] == "[]";
  }

  /** `[]` answers True exactly when every element answers True for the rest
      of the path; the values found are those of the elements in order, and
      a final `[]` appends the iterated value itself after its elements. */
  lemma FanOutFound(v: Value, rest: seq<string>)
    requires Members(v).Some?
    ensures var elems := Members(v).value;
      Extract(v, ["[]"] + rest).status == Found <==>
        forall i :: 0 <= i < |elems| ==> Extract(elems[i], rest).status == Found
    ensures var elems := Members(v).value;
      Extract(v, ["[]"] + rest).status == Found ==>
        Extract(v, ["[]"] + rest).values ==
          Flatten(ValuesOf(ElementCalls(elems, rest))) + (if rest == [] then [v] else [])
  {
    var keys := ["[]"] + rest;
    assert keys[0] == "[]" && keys[1..] == rest;
    var elems := Members(v).value;
    var outs := ElementCalls(elems, rest);
    var inner := Combine(outs);
    assert Extract(v, keys) == if inner.status == Found && rest == [] then Extraction(Found, inner.values + [v]) else inner;
    CombineFound(outs);
    assert |outs| == |elems|;
    assert forall i :: 0 <= i < |elems| ==> outs[i] == Extract(elems[i], rest);
    assert (forall i :: 0 <= i < |outs| ==> outs[i].status == Found) <==>
      (forall i :: 0 <= i < |elems| ==> Extract(elems[i], rest).status == Found);
  }

  /** `[]` over a list of `n` items reports failure of the first item, in
      order, that does not answer True, keeping what came before. */
  lemma FanOutFirstFailure(v: Value, rest: seq<string>, i: nat)
    requires Members(v).Some? && i < |Members(v).value|
    requires Extract(Members(v).value[i], rest).status != Found
    requires forall j :: 0 <= j < i ==> Extract(Members(v).value[j], rest).status == Found
    ensures Extract(v, ["[]"] + rest).status == Extract(Members(v).value[i], rest).status
    ensures Extract(v, ["[]"] + rest).values == Flatten(ValuesOf(ElementCalls(Members(v).value, rest)[..i + 1]))
  {
    var keys := ["[]"] + rest;
    assert keys[0] == "[]" && keys[1..] == rest;
    CombineFirstFailure(ElementCalls(Members(v).value, rest), i);
  }

  lemma {:induction false} FlattenSingletons(xs: seq<Value>)
    ensures Flatten(seq(|xs|, i requires 0 <= i < |xs| => [xs[i]])) == xs
  {
    if xs != [] {
      FlattenSingletons(xs[1..]);
      assert seq(|xs|, i requires 0 <= i < |xs| => [xs[i]])[1..] == seq(|xs[1..]|, i requires 0 <= i < |xs[1..]| => [xs[1..][i]]);
    }
  }

  /** A path ending in `[]` over a list collects every item and then the
      list itself. */
  lemma LastFanOutOverList(items: seq<Value>)
    ensures Extract(List(items), ["[]"]) == Extraction(Found, items + [List(items)])
  {
    var outs := ElementCalls(items, []);
    assert forall i :: 0 <= i < |items| ==> outs[i] == Extraction(Found, [items[i]]);
    CombineFound(outs);
    assert ValuesOf(outs) == seq(|items|, i requires 0 <= i < |items| => [items[i]]);
    FlattenSingletons(items);
    assert ["[]"] + [] == ["[]"];
    FanOutFound(List(items), []);
  }

  /** `[n]` selects item `n` of a list and continues with the rest of the
      path, or answers False when the list is too short. */
  lemma IndexStep(items: seq<Value>, n: nat, rest: seq<string>)
    ensures var k := "[" + Digits(n) + "]";
      Extract(List(items), [k] + rest) ==
        if n < |items| then Extract(items[n], rest) else Extraction(Returned(false), [])
  {
    var k := "[" + Digits(n) + "]";
    var keys := [k] + rest;
    assert keys[0] == k && keys[1..] == rest;
    assert k[1..|k| - 1] == Digits(n);
    DigitsRoundTrip(n);
  }

  /** `[n]` on a dict or a string answers False; on a scalar it raises. */
  lemma IndexOnNonList(v: Value, k: string, rest: seq<string>)
    requires IsIndex(k) && AllDigits(k[1..|k| - 1]) && !v.List?
    ensures Extract(v, [k] + rest) == Extraction(if Sized(v) then Returned(false) else Raised, [])
  {
    assert ([k] + rest)[0] == k;
  }

  /** Without `[]` segments a path finds at most one value, and it can be
      followed piece by piece: extracting `a + b` is extracting `b` from
      what `a` finds, and a failure on `a` is the failure of the whole. */
  lemma {:induction false} PathConcat(v: Value, a: seq<string>, b: seq<string>)
    requires forall i :: 0 <= i < |a| ==> !IsFanOut(a[i])
    ensures Extract(v, a).status == Found ==>
      |Extract(v, a).values| == 1 && Extract(v, a + b) == Extract(Extract(v, a).values[0], b)
    ensures Extract(v, a).status != Found ==>
      Extract(v, a).values == [] && Extract(v, a + b) == Extract(v, a)
    decreases |a|
  {
    if a == [] {
      assert a + b == b;
    } else {
      var k := a[0];
      assert (a + b)[0] == k && (a + b)[1..] == a[1..] + b;
      assert forall i :: 0 <= i < |a[1..]| ==> a[1..][i] == a[i + 1];
      if IsIndex(k) {
        var text := k[1..|k| - 1];
        if AllDigits(text) && v.List? && DigitsValue(text) < |v.items| {
          PathConcat(v.items[DigitsValue(text)], a[1..], b);
        }
      } else if v.Dict? && Lookup(v.entries, k).Some? {
        PathConcat(Lookup(v.entries, k).value, a[1..], b);
      }
    }
  }

  /** A path of plain keys finds a value exactly when each key is present
      in turn; a missing key, or a non-dict on the way, answers False. */
  lemma KeyStep(v: Value, k: string, rest: seq<string>)
    requires !Bracketed(k)
    ensures Extract(v, [k] + rest) ==
      if v.Dict? && Lookup(v.entries, k).Some? then Extract(Lookup(v.entries, k).value, rest)
      else Extraction(Returned(false), [])
  {
    assert ([k] + rest)[0] == k && ([k] + rest)[1..] == rest;
  }
}
