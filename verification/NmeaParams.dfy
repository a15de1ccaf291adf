/** The parameter iterator of main/comms/NMEAPkt.cpp (`nextParam`). */
module NmeaParams {
  import opened Nmea
  import opened Options

  /** What one call of `nextParam` gives: nothing was left to process; there are no more parameters; or a
      parameter that starts at index `start` of the packet and is `length` bytes long. */
  datatype Param = Exhausted | NoMore | At(start: nat, length: nat)

  /** `nextParam` from position `ptr` of `raw`, with the position it moves to. */
  function Next(raw: seq<u8>, ptr: Option<nat>): (Option<nat>, Param) {
    match ptr
    case None => (None, Exhausted)
    case Some(p) => ParamAfter(raw, Find(raw, COMMA, p))
  }

  /** The parameter behind the comma found, if any. */
  function ParamAfter(raw: seq<u8>, found: Option<nat>): (Option<nat>, Param) {
    match found
    case None => (None, NoMore)
    case Some(comma) =>
      var start := comma + 1;
      var limit := if Find(raw, COMMA, start).Some? then Find(raw, COMMA, start) else Find(raw, STAR, start);
      if limit.None? then (None, NoMore)
      else (limit, At(start, if limit.value >= start then limit.value - start else 0))
  }

  lemma {:induction false} FindAfter(s: seq<u8>, c: u8, from: nat)
    ensures Find(s, c, from).Some? ==> from <= Find(s, c, from).value < |s| && s[Find(s, c, from).value] == c
    ensures from <= |s| ==> (Find(s, c, from).None? <==> c !in s[from..])
    decreases |s| - from
  {
    if from < |s| {
      FindAfter(s, c, from + 1);
      assert s[from..] == [s[from]] + s[from + 1..];
    }
  }

  /** Each parameter lies inside the packet, and the position strictly advances. */
  lemma NextAdvances(raw: seq<u8>, p: nat)
    requires p <= |raw|
    ensures var (next, param) := Next(raw, Some(p));
            param.At? ==> next.Some? && p < param.start && param.start + param.length == next.value < |raw|
    ensures Next(raw, Some(p)).1 != Exhausted
  {
    FindAfter(raw, COMMA, p);
    if Find(raw, COMMA, p).Some? {
      var start := Find(raw, COMMA, p).value + 1;
      FindAfter(raw, COMMA, start);
      FindAfter(raw, STAR, start);
    }
  }

  /** When there are no more parameters there never will be: every later call is told that nothing is left. */
  lemma IteratorEnds(raw: seq<u8>, p: nat)
    requires Next(raw, Some(p)).1 == NoMore
    ensures Next(raw, Some(p)).0 == None && Next(raw, None) == (None, Exhausted)
  {
  }

  /** All the parameters, from repeated calls until there are no more. */
  function Params(raw: seq<u8>, p: nat): seq<seq<u8>>
    requires p <= |raw|
    decreases |raw| - p
  {
    NextAdvances(raw, p);
    var (next, param) := Next(raw, Some(p));
    if param.At? then [raw[param.start..param.start + param.length]] + Params(raw, next.value) else []
  }

  /** The comma-separated fields of a string. */
  function Split(s: seq<u8>): (fields: seq<seq<u8>>)
    ensures fields != []
    decreases |s|
  {
    FindAfter(s, COMMA, 0);
    match Find(s, COMMA, 0)
    case None => [s]
    case Some(k) => [s[..k]] + Split(s[k + 1..])
  }

  function JoinFields(fields: seq<seq<u8>>): seq<u8> {
    if |fields| == 0 then [] else if |fields| == 1 then fields[0] else fields[0] + [COMMA] + JoinFields(fields[1..])
  }

  /** `Split` is what it says: fields without commas that, joined by commas, give back the string. */
  lemma {:induction false} SplitJoins(s: seq<u8>)
    ensures JoinFields(Split(s)) == s
    ensures forall f | f in Split(s) :: COMMA !in f
    decreases |s|
  {
    FindAfter(s, COMMA, 0);
    assert s[0..] == s;
    match Find(s, COMMA, 0)
    case None =>
    case Some(k) =>
      SplitJoins(s[k + 1..]);
      FindIsFirst(s, COMMA, 0);
      assert s == s[..k] + [COMMA] + s[k + 1..];
      assert Split(s)[1..] == Split(s[k + 1..]);
  }

  lemma {:induction false} FindIsFirst(s: seq<u8>, c: u8, from: nat)
    requires from <= |s| && Find(s, c, from).Some?
    ensures from <= Find(s, c, from).value < |s|
    ensures c !in s[from..Find(s, c, from).value]
    decreases |s| - from
  {
    if from < |s| && s[from] != c {
      FindIsFirst(s, c, from + 1);
      var k := Find(s, c, from).value;
      assert s[from..k] == [s[from]] + s[from + 1..k];
    }
  }

  lemma {:induction false} FindInSlice(s: seq<u8>, c: u8, offset: nat, from: nat, end: nat)
    requires offset + from <= end <= |s|
    requires Find(s[offset..end], c, from).Some?
    ensures Find(s, c, offset + from) == Some(offset + Find(s[offset..end], c, from).value)
    decreases end - from
  {
    var t := s[offset..end];
    if from < |t| && t[from] != c {
      FindInSlice(s, c, offset, from + 1, end);
    }
  }

  lemma MiddleParam(raw: seq<u8>, comma: nat, star: nat)
    requires comma < star < |raw| && raw[comma] == COMMA
    requires Find(raw[comma + 1..star], COMMA, 0).Some?
    ensures var next := comma + 1 + Find(raw[comma + 1..star], COMMA, 0).value;
            && next < star && raw[next] == COMMA
            && Next(raw, Some(comma)).0 == Some(next)
            && Next(raw, Some(comma)).1 == At(comma + 1, next - comma - 1)
  {
    FindAfter(raw[comma + 1..star], COMMA, 0);
    FindInSlice(raw, COMMA, comma + 1, 0, star);
  }

  /** What the searches find in the last parameter: no further comma, and its '*'. */
  lemma LastFinds(raw: seq<u8>, start: nat, star: nat)
    requires start <= star < |raw| && raw[star] == STAR
    requires STAR !in raw[start..star] && COMMA !in raw[start..star] && COMMA !in raw[star + 1..]
    ensures Find(raw, COMMA, start).None? && Find(raw, STAR, start) == Some(star) && Find(raw, COMMA, star).None?
  {
    NoCommaAfter(raw, start, star);
    FindNothing(raw, COMMA, start);
    FindFirst(raw, STAR, start, star);
    NoCommaFromStar(raw, star);
    FindNothing(raw, COMMA, star);
  }

  lemma NextAtComma(raw: seq<u8>, comma: nat)
    requires comma < |raw| && raw[comma] == COMMA
    ensures Find(raw, COMMA, comma) == Some(comma)
  {
  }

  lemma LastParam(raw: seq<u8>, comma: nat, star: nat)
    requires comma < star < |raw| && raw[comma] == COMMA && raw[star] == STAR
    requires STAR !in raw[comma + 1..star] && COMMA !in raw[star + 1..]
    requires Find(raw[comma + 1..star], COMMA, 0).None?
    ensures Next(raw, Some(comma)).0 == Some(star)
    ensures Next(raw, Some(comma)).1 == At(comma + 1, star - comma - 1)
    ensures Params(raw, star) == []
  {
    var s := raw[comma + 1..star];
    FindAfter(s, COMMA, 0);
    assert s[0..] == s;
    LastFinds(raw, comma + 1, star);
    NextAtComma(raw, comma);
  }

  lemma ParamsStep(raw: seq<u8>, p: nat, start: nat, length: nat)
    requires p <= |raw| && Next(raw, Some(p)).1 == At(start, length)
    ensures start + length < |raw| && Next(raw, Some(p)).0 == Some(start + length) && p < start
    ensures Params(raw, p) == [raw[start..start + length]] + Params(raw, start + length)
  {
    NextAdvances(raw, p);
  }

  /** One field, and what is left behind its comma. */
  lemma FieldThenRest(raw: seq<u8>, comma: nat, star: nat)
    requires comma < star < |raw| && raw[comma] == COMMA
    requires Find(raw[comma + 1..star], COMMA, 0).Some?
    ensures var s := raw[comma + 1..star];
            var k := Find(s, COMMA, 0).value;
            var next := comma + 1 + k;
            && k < |s| && next < star && raw[next] == COMMA
            && Params(raw, comma) == [s[..k]] + Params(raw, next)
            && Split(s) == [s[..k]] + Split(raw[next + 1..star])
  {
    var s := raw[comma + 1..star];
    var k := Find(s, COMMA, 0).value;
    MiddleParam(raw, comma, star);
    ParamsStep(raw, comma, comma + 1, k);
    assert raw[comma + 1 + k + 1..star] == s[k + 1..];
    assert raw[comma + 1..comma + 1 + k] == s[..k];
  }

  lemma LastField(raw: seq<u8>, comma: nat, star: nat)
    requires comma < star < |raw| && raw[comma] == COMMA && raw[star] == STAR
    requires STAR !in raw[comma + 1..star] && COMMA !in raw[star + 1..]
    requires Find(raw[comma + 1..star], COMMA, 0).None?
    ensures Params(raw, comma) == [raw[comma + 1..star]] == Split(raw[comma + 1..star])
  {
    LastParam(raw, comma, star);
    ParamsStep(raw, comma, comma + 1, star - comma - 1);
  }

  /** From a comma on, with the text `s` up to the first '*' and no comma after it, the iterator yields the
      fields of `s`. */
  lemma {:induction false} ParamsFromComma(raw: seq<u8>, comma: nat, star: nat)
    requires comma < star < |raw| && raw[comma] == COMMA && raw[star] == STAR
    requires STAR !in raw[comma + 1..star] && COMMA !in raw[star + 1..]
    ensures Params(raw, comma) == Split(raw[comma + 1..star])
    decreases star - comma
  {
    match Find(raw[comma + 1..star], COMMA, 0)
    case Some(k) =>
      FieldThenRest(raw, comma, star);
      StarStillAbsent(raw, comma, comma + 1 + k, star);
      ParamsFromComma(raw, comma + 1 + k, star);
    case None =>
      LastField(raw, comma, star);
  }

  lemma StarStillAbsent(raw: seq<u8>, comma: nat, later: nat, star: nat)
    requires comma <= later < star < |raw| && STAR !in raw[comma + 1..star]
    ensures STAR !in raw[later + 1..star]
  {
    assert raw[later + 1..star] == raw[comma + 1..star][later - comma..];
  }

  lemma NoCommaAfter(raw: seq<u8>, start: nat, star: nat)
    requires start <= star < |raw| && raw[star] == STAR
    requires COMMA !in raw[start..star] && COMMA !in raw[star + 1..]
    ensures COMMA !in raw[start..]
  {
    assert raw[start..] == raw[start..star] + [raw[star]] + raw[star + 1..];
  }

  lemma NoCommaFromStar(raw: seq<u8>, star: nat)
    requires star < |raw| && raw[star] == STAR && COMMA !in raw[star + 1..]
    ensures COMMA !in raw[star..]
  {
    assert raw[star..] == [raw[star]] + raw[star + 1..];
  }

  /** Where the parameter string stands, and that the first call finds its start. */
  lemma WithParams(head: seq<u8>, params: seq<u8>, tail: seq<u8>)
    requires COMMA !in head && COMMA !in tail && head != [] && head[0] == DOLLAR
    ensures var p, comma := head + [COMMA] + params + [STAR] + tail, |head|;
            var star := comma + 1 + |params|;
            && p[comma] == COMMA && p[star] == STAR
            && p[comma + 1..star] == params
            && p[star + 1..] == tail
            && Find(p, COMMA, 0) == Some(comma) == Find(p, COMMA, comma)
  {
    var p, comma := head + [COMMA] + params + [STAR] + tail, |head|;
    assert p[0..comma] == head;
    FindFirst(p, COMMA, 0, comma);
  }

  lemma SameNext(raw: seq<u8>, p: nat, q: nat)
    requires p <= |raw| && q <= |raw| && Find(raw, COMMA, p) == Find(raw, COMMA, q)
    ensures Next(raw, Some(p)) == Next(raw, Some(q))
  {
  }

  lemma SameParams(raw: seq<u8>, p: nat, q: nat)
    requires p <= |raw| && q <= |raw| && Find(raw, COMMA, p) == Find(raw, COMMA, q)
    ensures Params(raw, p) == Params(raw, q)
  {
    SameNext(raw, p, q);
  }

  lemma ParamsOf(head: seq<u8>, params: seq<u8>, tail: seq<u8>)
    requires COMMA !in head && COMMA !in tail && head != [] && head[0] == DOLLAR && STAR !in params
    ensures Params(head + [COMMA] + params + [STAR] + tail, 0) == Split(params)
  {
    WithParams(head, params, tail);
    ParamsFromHead(head + [COMMA] + params + [STAR] + tail, |head|, |head| + 1 + |params|);
  }

  /** The first call finds the first comma wherever it starts. */
  lemma ParamsFromHead(p: seq<u8>, comma: nat, star: nat)
    requires comma < star < |p| && p[comma] == COMMA && p[star] == STAR
    requires STAR !in p[comma + 1..star] && COMMA !in p[star + 1..]
    requires Find(p, COMMA, 0) == Some(comma) == Find(p, COMMA, comma)
    ensures Params(p, 0) == Split(p[comma + 1..star])
  {
    ParamsFromComma(p, comma, star);
    SameParams(p, 0, comma);
  }

  lemma NoParamsOf(raw: seq<u8>)
    requires COMMA !in raw
    ensures Params(raw, 0) == []
  {
    assert raw[0..] == raw;
    FindNothing(raw, COMMA, 0);
  }

  /** The parameters of an encoded packet are the comma-separated fields it was made from, empty ones
      included; a packet made without a parameter string has none. */
  lemma ParamsRoundTrip(page: u8, params: Option<seq<u8>>)
    requires Plain(params)
    ensures Params(Packet(page, params), 0) == if params.Some? then Split(params.value) else []
  {
    var tail := Hex2(XorAll(Body(page, params))) + [NUL];
    NoCommas(page, XorAll(Body(page, params)));
    PacketShape(page, params);
    match params
    case Some(value) =>
      assert Packet(page, params) == ([DOLLAR] + Dec2(page)) + [COMMA] + value + [STAR] + tail;
      ParamsOf([DOLLAR] + Dec2(page), value, tail);
    case None =>
      assert Packet(page, params) == [DOLLAR] + Dec2(page) + [STAR] + tail;
      NoParamsOf(Packet(page, params));
  }

  lemma NoCommas(page: u8, sum: u8)
    ensures COMMA !in [DOLLAR] + Dec2(page) && COMMA !in Hex2(sum) + [NUL]
  {
  }

  /** In an encoded packet every parameter has an end, so the iterator is always defined on it. */
  lemma AlwaysDelimited(page: u8, params: Option<seq<u8>>, p: nat)
    requires Plain(params) && p < |Packet(page, params)|
    ensures var raw := Packet(page, params);
            Find(raw, COMMA, p).Some? ==> Next(raw, Some(p)).1.At?
  {
    var raw, body := Packet(page, params), Body(page, params);
    var star := |body| + 1;
    assert raw[star] == STAR && COMMA !in raw[star + 1..] by {
      PacketShape(page, params);
      NoCommas(page, XorAll(body));
      assert raw[star + 1..] == Hex2(XorAll(body)) + [NUL];
    }
    Delimited(raw, p, star);
  }

  lemma FindReaches(s: seq<u8>, c: u8, from: nat, k: nat)
    requires from <= k < |s| && s[k] == c
    ensures Find(s, c, from).Some?
  {
    FindAfter(s, c, from);
    assert s[from..][k - from] == c;
  }

  lemma Delimited(raw: seq<u8>, p: nat, star: nat)
    requires p < |raw| && star < |raw| && raw[star] == STAR && COMMA !in raw[star + 1..]
    ensures Find(raw, COMMA, p).Some? ==> Next(raw, Some(p)).1.At?
  {
    FindAfter(raw, COMMA, p);
    if Find(raw, COMMA, p).Some? {
      var comma := Find(raw, COMMA, p).value;
      LastComma(raw, comma, star);
      FindReaches(raw, STAR, comma + 1, star);
    }
  }

  lemma LastComma(raw: seq<u8>, comma: nat, star: nat)
    requires comma < |raw| && star < |raw| && raw[comma] == COMMA && raw[star] == STAR && COMMA !in raw[star + 1..]
    ensures comma < star
  {
    assert forall k | star < k < |raw| :: raw[k] in raw[star + 1..];
  }
}
