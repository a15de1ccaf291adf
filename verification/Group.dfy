/** The group-info exchange: `Picman::requestGroupInfo`, the PICCOMMS_KN_SESS_SPK case of PicParser, GroupInfo
and the hexadecimal helpers.

A request takes a token, clears the list and asks the PIC for the group. The PIC answers with one packet per
member, each announcing how many there are; the last one completes the list, which is then reported to the
app and the token given back.
*/
module Group {
  import opened Nmea
  import opened Options
  import opened NmeaParams
  import opened PicLink

  /** `PICCOMMS_KN_SESS_SPK` */
  const KN_SESS_SPK: u8 := 61

  /** The size of the member array. */
  const MEMBERS_MAX: nat := 12

  const MAC_DIGITS: nat := 12
  const ID_DIGITS: nat := 6

  datatype Member = Member(mac: seq<u8>, id: seq<u8>)

  // ---------------------------------------------------------------- helper.cpp

  function Ascii2Nibble(c: u8): u8 {
    if 48 <= c <= 57 then c - 48
    else if 97 <= c <= 102 then c - 97 + 10
    else if 65 <= c <= 70 then c - 65 + 10
    else 16
  }

  /** `nibbles2byte` on the two nibbles, in eight bits. */
  function Ascii2Byte(high: u8, low: u8): u8 {
    (Ascii2Nibble(high) * 16 + Ascii2Nibble(low)) % 256
  }

  lemma NibbleReadsBack(n: nat)
    requires n < 16
    ensures Ascii2Nibble(HexDigit(n)) == n == Ascii2Nibble(LowerDigit(n))
  {
  }

  /** A byte written in hexadecimal, in either case, reads back. */
  lemma HexReadsBack(n: u8)
    ensures Ascii2Byte(Hex2(n)[0], Hex2(n)[1]) == n
    ensures Ascii2Byte(LowerHex2(n)[0], LowerHex2(n)[1]) == n
  {
    NibbleReadsBack(n / 16);
    NibbleReadsBack(n % 16);
  }

  function DecodePairs(text: seq<u8>): (bytes: seq<u8>)
    ensures |bytes| == |text| / 2
  {
    seq(|text| / 2, i requires 0 <= i < |text| / 2 => Ascii2Byte(text[2 * i], text[2 * i + 1]))
  }

  /** `text` is `bytes` in hexadecimal, each byte in either case. */
  predicate Spells(text: seq<u8>, bytes: seq<u8>) {
    && |text| == 2 * |bytes|
    && forall i | 0 <= i < |bytes| :: SpellsByte(text[2 * i], text[2 * i + 1], bytes[i])
  }

  predicate SpellsByte(high: u8, low: u8, n: u8) {
    [high, low] == Hex2(n) || [high, low] == LowerHex2(n)
  }

  lemma SpelledByteReadsBack(high: u8, low: u8, n: u8)
    requires SpellsByte(high, low, n)
    ensures Ascii2Byte(high, low) == n
  {
    HexReadsBack(n);
    assert [high, low][0] == high && [high, low][1] == low;
  }

  /** An address written in hexadecimal reads back. */
  lemma AddressReadsBack(text: seq<u8>, bytes: seq<u8>)
    requires Spells(text, bytes)
    ensures DecodePairs(text) == bytes
  {
    forall i | 0 <= i < |bytes|
      ensures DecodePairs(text)[i] == bytes[i]
    {
      SpelledByteReadsBack(text[2 * i], text[2 * i + 1], bytes[i]);
    }
  }

  // ---------------------------------------------------------------- the exchange, as a function

  /** `token` is the semaphore; `members` and `expected` the list being filled; `asked` counts the requests
      sent to the PIC; `reports` are the lists sent to the app. */
  datatype Exchange = Exchange(token: bool, members: seq<Member>, expected: int, asked: nat, reports: seq<seq<Member>>)

  datatype Event = Request | Reply(raw: seq<u8>)

  function OnRequest(x: Exchange): Exchange {
    if x.token then x.(token := false, members := [], asked := x.asked + 1) else x
  }

  function Report(x: Exchange): Exchange {
    x.(reports := x.reports + [x.members], token := true)
  }

  function AddMember(x: Exchange, m: Member): Exchange {
    if |x.members| == MEMBERS_MAX then x else x.(members := x.members + [m])
  }

  predicate Complete(x: Exchange) {
    x.expected != 0 && x.expected == |x.members|
  }

  /** `n` bytes of the packet from `at` on, as far as there are any. */
  function Slice(raw: seq<u8>, at: nat, n: nat): seq<u8> {
    if at + n <= |raw| then raw[at..at + n] else []
  }

  /** A parameter that is there and not empty. */
  predicate Given(p: Param) {
    p.At? && p.length > 0
  }

  function OnReply(x: Exchange, raw: seq<u8>): Exchange {
    var (ptr, count) := Next(raw, Some(0));
    if !Given(count) || count.start >= |raw| then x
    else
      var y := x.(expected := raw[count.start] as int - 48);
      if raw[count.start] == 48 then Report(y) else OnMember(y, raw, ptr)
  }

  /** The rest of a reply, from position `ptr` on: one member. */
  function OnMember(x: Exchange, raw: seq<u8>, ptr: Option<nat>): Exchange {
    var (ptr2, mac) := Next(raw, ptr);
    if !Given(mac) then x
    else
      var (_, id) := Next(raw, ptr2);
      if !Given(id) then x
      else
        var m := Member(DecodePairs(Slice(raw, mac.start, MAC_DIGITS)), DecodePairs(Slice(raw, id.start, ID_DIGITS)));
        var z := AddMember(x, m);
        if Complete(z) then Report(z) else z
  }

  function Step(x: Exchange, e: Event): Exchange {
    match e
    case Request => OnRequest(x)
    case Reply(raw) => OnReply(x, raw)
  }

  function Run(x: Exchange, events: seq<Event>): Exchange {
    if events == [] then x else Step(Run(x, events[..|events| - 1]), events[|events| - 1])
  }

  // ---------------------------------------------------------------- one reply

  predicate HexText(text: seq<u8>) {
    forall c | c in text :: Ascii2Nibble(c) < 16
  }

  /** A reply for one member of a group of `k`: "k,mac,id". */
  datatype Answer = Answer(mac: seq<u8>, id: seq<u8>)

  predicate WellFormed(a: Answer) {
    |a.mac| == MAC_DIGITS && |a.id| == ID_DIGITS && HexText(a.mac) && HexText(a.id)
  }

  function Params3(k: nat, a: Answer): seq<u8>
    requires 1 <= k <= 9
  {
    [48 + k] + [COMMA] + a.mac + [COMMA] + a.id
  }

  function AnswerPacket(k: nat, a: Answer): seq<u8>
    requires 1 <= k <= 9
  {
    Packet(KN_SESS_SPK, Some(Params3(k, a)))
  }

  function Decoded(a: Answer): Member {
    Member(DecodePairs(a.mac), DecodePairs(a.id))
  }

  lemma SplitAt(s: seq<u8>, field: seq<u8>, rest: seq<u8>)
    requires s == field + [COMMA] + rest && COMMA !in field
    ensures Split(s) == [field] + Split(rest)
  {
    assert s[0..|field|] == field;
    FindFirst(s, COMMA, 0, |field|);
    assert s[..|field|] == field && s[|field| + 1..] == rest;
  }

  lemma SplitWhole(s: seq<u8>)
    requires COMMA !in s
    ensures Split(s) == [s]
  {
    assert s[0..] == s;
    FindNothing(s, COMMA, 0);
  }

  lemma AnswerFields(k: nat, a: Answer)
    requires 1 <= k <= 9 && WellFormed(a)
    ensures Split(Params3(k, a)) == [[48 + k], a.mac, a.id]
    ensures NUL !in Params3(k, a) && STAR !in Params3(k, a)
  {
    assert COMMA !in a.mac && COMMA !in a.id;
    assert NUL !in a.mac && NUL !in a.id && STAR !in a.mac && STAR !in a.id;
    var tail := a.mac + [COMMA] + a.id;
    assert Params3(k, a) == [48 + k] + [COMMA] + tail;
    SplitAt(Params3(k, a), [48 + k], tail);
    SplitAt(tail, a.mac, a.id);
    SplitWhole(a.id);
    assert [[48 + k]] + ([a.mac] + [a.id]) == [[48 + k], a.mac, a.id];
  }

  /** `p` is a parameter of `raw` that reads `text`. */
  predicate Reads(raw: seq<u8>, p: Param, text: seq<u8>) {
    p.At? && p.length == |text| && p.start + |text| <= |raw| && raw[p.start..p.start + |text|] == text
  }

  /** The first parameter from a position, when there are any. */
  lemma FirstParam(raw: seq<u8>, p: nat, fields: seq<seq<u8>>)
    requires p <= |raw| && Params(raw, p) == fields && fields != []
    ensures Reads(raw, Next(raw, Some(p)).1, fields[0])
    ensures Next(raw, Some(p)).0.Some? && Next(raw, Some(p)).0.value <= |raw|
    ensures Params(raw, Next(raw, Some(p)).0.value) == fields[1..]
  {
    NextAdvances(raw, p);
  }

  /** Three parameters, found one after the other. */
  lemma ThreeParams(raw: seq<u8>, a: seq<u8>, b: seq<u8>, c: seq<u8>)
    requires Params(raw, 0) == [a, b, c]
    ensures var (ptr1, p1) := Next(raw, Some(0));
            var (ptr2, p2) := Next(raw, ptr1);
            Reads(raw, p1, a) && Reads(raw, p2, b) && Reads(raw, Next(raw, ptr2).1, c)
  {
    FirstParam(raw, 0, [a, b, c]);
    assert [a, b, c][1..] == [b, c] && [b, c][1..] == [c];
    SecondAndThird(raw, Next(raw, Some(0)).0.value, b, c);
  }

  lemma SecondAndThird(raw: seq<u8>, p: nat, b: seq<u8>, c: seq<u8>)
    requires p <= |raw| && Params(raw, p) == [b, c]
    ensures var (ptr, param) := Next(raw, Some(p));
            Reads(raw, param, b) && Reads(raw, Next(raw, ptr).1, c)
  {
    FirstParam(raw, p, [b, c]);
    assert [b, c][1..] == [c];
    FirstParam(raw, Next(raw, Some(p)).0.value, [c]);
  }

  /** The exchange once the answer `a` has been taken in. */
  function TakenIn(x: Exchange, a: Answer): Exchange {
    var y := x.(members := x.members + [Decoded(a)]);
    if |y.members| == y.expected then Report(y) else y
  }

  lemma MemberOf(x: Exchange, raw: seq<u8>, ptr: Option<nat>, a: Answer)
    requires WellFormed(a) && |x.members| < MEMBERS_MAX && x.expected != 0
    requires Reads(raw, Next(raw, ptr).1, a.mac) && Reads(raw, Next(raw, Next(raw, ptr).0).1, a.id)
    ensures OnMember(x, raw, ptr) == TakenIn(x, a)
  {
    var mac, id := Next(raw, ptr).1, Next(raw, Next(raw, ptr).0).1;
    assert Slice(raw, mac.start, MAC_DIGITS) == a.mac;
    assert Slice(raw, id.start, ID_DIGITS) == a.id;
  }

  lemma ReplyOf(x: Exchange, raw: seq<u8>, k: nat, a: Answer)
    requires 1 <= k <= 9 && WellFormed(a) && |x.members| < MEMBERS_MAX
    requires Params(raw, 0) == [[48 + k], a.mac, a.id]
    ensures OnReply(x, raw) == TakenIn(x.(expected := k), a)
  {
    ThreeParams(raw, [48 + k], a.mac, a.id);
    var (ptr, count) := Next(raw, Some(0));
    assert raw[count.start..count.start + 1][0] == 48 + k;
    MemberOf(x.(expected := k), raw, ptr, a);
  }

  /** What a well-formed reply does: announce `k`, add its member, and complete the exchange if that makes
      `k`. */
  lemma ReplyAddsMember(x: Exchange, k: nat, a: Answer)
    requires 1 <= k <= 9 && WellFormed(a) && |x.members| < MEMBERS_MAX
    ensures var y := x.(expected := k, members := x.members + [Decoded(a)]);
            OnReply(x, AnswerPacket(k, a)) == if |y.members| == k then Report(y) else y
  {
    AnswerFields(k, a);
    ParamsRoundTrip(KN_SESS_SPK, Some(Params3(k, a)));
    ReplyOf(x, AnswerPacket(k, a), k, a);
  }

  // ---------------------------------------------------------------- a whole exchange

  /** One thing that can happen while replies to a request are awaited: the next reply, or another request. */
  datatype Turn = Answered(a: Answer) | AskedAgain

  function Events(k: nat, turns: seq<Turn>): (events: seq<Event>)
    requires 1 <= k <= 9
    ensures |events| == |turns|
  {
    seq(|turns|, i requires 0 <= i < |turns| => TurnEvent(k, turns[i]))
  }

  function Answers(turns: seq<Turn>): seq<Answer> {
    if turns == [] then []
    else
      Answers(turns[..|turns| - 1]) + TurnAnswers(turns[|turns| - 1])
  }

  function Members(answers: seq<Answer>): (members: seq<Member>)
    ensures |members| == |answers|
  {
    seq(|answers|, i requires 0 <= i < |answers| => Decoded(answers[i]))
  }

  ghost predicate AllWellFormed(turns: seq<Turn>) {
    forall t | t in turns && t.Answered? :: WellFormed(t.a)
  }

  /** The event of one turn. */
  function TurnEvent(k: nat, turn: Turn): Event
    requires 1 <= k <= 9
  {
    if turn.Answered? then Reply(AnswerPacket(k, turn.a)) else Request
  }

  function TurnAnswers(turn: Turn): seq<Answer> {
    if turn.Answered? then [turn.a] else []
  }

  /** One turn before the last reply. */
  lemma FillingTurn(x: Exchange, k: nat, turn: Turn)
    requires 1 <= k <= 9 && (turn.Answered? ==> WellFormed(turn.a) && |x.members| + 1 < k)
    requires !x.token
    ensures var y := Step(x, TurnEvent(k, turn));
            && !y.token && y.members == x.members + Members(TurnAnswers(turn))
            && y.reports == x.reports && y.asked == x.asked
  {
    if turn.Answered? {
      ReplyAddsMember(x, k, turn.a);
    }
  }

  /** The last reply. */
  lemma LastTurn(x: Exchange, k: nat, last: Answer)
    requires 1 <= k <= 9 && WellFormed(last) && |x.members| == k - 1
    ensures var y := Step(x, Reply(AnswerPacket(k, last)));
            && y.token && y.asked == x.asked
            && y.reports == x.reports + [x.members + Members([last])]
  {
    ReplyAddsMember(x, k, last);
    assert Members([last]) == [Decoded(last)];
  }

  lemma MembersConcat(a: seq<Answer>, b: seq<Answer>)
    ensures Members(a + b) == Members(a) + Members(b)
  {
  }

  lemma TurnsSnoc(k: nat, front: seq<Turn>, last: Turn)
    requires 1 <= k <= 9
    ensures Events(k, front + [last]) == Events(k, front) + [TurnEvent(k, last)]
    ensures Answers(front + [last]) == Answers(front) + TurnAnswers(last)
  {
    assert (front + [last])[..|front + [last]| - 1] == front;
  }

  lemma RunLast(x: Exchange, front: seq<Event>, last: Event)
    ensures Run(x, front + [last]) == Step(Run(x, front), last)
  {
    assert (front + [last])[..|front + [last]| - 1] == front;
  }

  /** Until the last reply the list fills up in order, nothing is reported, and other requests get nowhere. */
  lemma {:induction false} ListFillsUp(x: Exchange, k: nat, turns: seq<Turn>)
    requires 1 <= k <= 9 && AllWellFormed(turns) && |Answers(turns)| < k
    requires !x.token && x.members == []
    ensures var y := Run(x, Events(k, turns));
            && !y.token && y.members == Members(Answers(turns)) && y.reports == x.reports && y.asked == x.asked
    decreases |turns|
  {
    if turns != [] {
      var front, last := turns[..|turns| - 1], turns[|turns| - 1];
      assert turns == front + [last];
      assert last in turns && forall t | t in front :: t in turns;
      TurnsSnoc(k, front, last);
      ListFillsUp(x, k, front);
      RunLast(x, Events(k, front), TurnEvent(k, last));
      FillingTurn(Run(x, Events(k, front)), k, last);
      MembersConcat(Answers(front), TurnAnswers(last));
    }
  }

  /** The answers announce the members of `group`, in order. */
  predicate Announce(answers: seq<Answer>, group: seq<Member>) {
    && |answers| == |group|
    && forall i | 0 <= i < |group| :: Spells(answers[i].mac, group[i].mac) && Spells(answers[i].id, group[i].id)
  }

  lemma AnnouncedMembers(answers: seq<Answer>, group: seq<Member>)
    requires Announce(answers, group)
    ensures Members(answers) == group
  {
    forall i | 0 <= i < |group|
      ensures Members(answers)[i] == group[i]
    {
      AddressReadsBack(answers[i].mac, group[i].mac);
      AddressReadsBack(answers[i].id, group[i].id);
    }
  }

  /** After a request has taken the token, k replies that each announce k members, with further requests
      anywhere among them, cause exactly one report, on the k-th reply, holding the k decoded members in
      order of arrival; one request has gone out; and the token is available again. */
  lemma ExchangeReportsOnce(x: Exchange, k: nat, turns: seq<Turn>, last: Answer)
    requires 1 <= k <= 9 && x.token
    requires AllWellFormed(turns) && WellFormed(last) && |Answers(turns)| == k - 1
    ensures var y := Run(OnRequest(x), Events(k, turns + [Answered(last)]));
            && y.reports == x.reports + [Members(Answers(turns) + [last])]
            && y.token && y.asked == x.asked + 1
    ensures Run(OnRequest(x), Events(k, turns)).reports == x.reports
  {
    ListFillsUp(OnRequest(x), k, turns);
    TurnsSnoc(k, turns, Answered(last));
    RunLast(OnRequest(x), Events(k, turns), Reply(AnswerPacket(k, last)));
    LastTurn(Run(OnRequest(x), Events(k, turns)), k, last);
    MembersConcat(Answers(turns), [last]);
  }

  /** And those are the group's addresses, whatever case the replies spell them in. */
  lemma ExchangeReportsAddresses(x: Exchange, k: nat, turns: seq<Turn>, last: Answer, group: seq<Member>)
    requires 1 <= k <= 9 && x.token
    requires AllWellFormed(turns) && WellFormed(last)
    requires |group| == k && Announce(Answers(turns) + [last], group)
    ensures Run(OnRequest(x), Events(k, turns + [Answered(last)])).reports == x.reports + [group]
  {
    ExchangeReportsOnce(x, k, turns, last);
    AnnouncedMembers(Answers(turns) + [last], group);
  }

  // ---------------------------------------------------------------- other replies

  /** A reply packet with the given parameter string. */
  function ReplyPacket(value: seq<u8>): seq<u8> {
    Packet(KN_SESS_SPK, Some(value))
  }

  predicate NoStar(value: seq<u8>) {
    NUL !in value && STAR !in value
  }

  lemma ReplyParams(value: seq<u8>)
    requires NoStar(value)
    ensures Params(ReplyPacket(value), 0) == Split(value)
  {
    ParamsRoundTrip(KN_SESS_SPK, Some(value));
  }

  lemma SplitHead(value: seq<u8>)
    ensures Split(value)[0] == [] <==> value == [] || value[0] == COMMA
    ensures Split(value)[0] != [] ==> Split(value)[0][0] == value[0]
  {
    FindAfter(value, COMMA, 0);
  }

  /** The count is the first character of the first field, if that is not empty. */
  lemma CountOf(raw: seq<u8>, fields: seq<seq<u8>>)
    requires Params(raw, 0) == fields && fields != [] && fields[0] != []
    ensures var (ptr, count) := Next(raw, Some(0));
            && Given(count) && count.start < |raw| && raw[count.start] == fields[0][0]
            && ptr.Some? && ptr.value <= |raw| && Params(raw, ptr.value) == fields[1..]
  {
    FirstParam(raw, 0, fields);
    var count := Next(raw, Some(0)).1;
    assert raw[count.start..count.start + count.length][0] == fields[0][0];
  }

  /** A reply whose count starts with '0', whatever follows it, reports the list as it is and gives the token
      back. */
  lemma ZeroReply(x: Exchange, value: seq<u8>)
    requires NoStar(value) && value != [] && value[0] == 48
    ensures OnReply(x, ReplyPacket(value)) ==
            x.(expected := 0, reports := x.reports + [x.members], token := true)
  {
    ReplyParams(value);
    SplitHead(value);
    CountOf(ReplyPacket(value), Split(value));
  }

  /** Requests while the token is taken. */
  lemma {:induction false} RequestsInVain(x: Exchange, requests: seq<Event>)
    requires !x.token && forall e | e in requests :: e == Request
    ensures Run(x, requests) == x
    decreases |requests|
  {
    if requests != [] {
      var n := |requests| - 1;
      assert requests[n] in requests && forall e | e in requests[..n] :: e in requests;
      RequestsInVain(x, requests[..n]);
    }
  }

  /** The exchange of a speaker without followers: after a request has taken the token, with further requests
      before the answer, a reply announcing none causes exactly one report, the empty list, and gives the token
      back, so that the next request goes out again. */
  lemma ZeroExchange(x: Exchange, requests: seq<Event>, value: seq<u8>)
    requires x.token && forall e | e in requests :: e == Request
    requires NoStar(value) && value != [] && value[0] == 48
    ensures var y := Run(OnRequest(x), requests + [Reply(ReplyPacket(value))]);
            && y.reports == x.reports + [[]] && y.token && y.asked == x.asked + 1
            && var z := OnRequest(y); z.asked == x.asked + 2 && !z.token && z.members == []
  {
    RequestsInVain(OnRequest(x), requests);
    RunLast(OnRequest(x), requests, Reply(ReplyPacket(value)));
    ZeroReply(OnRequest(x), value);
  }

  lemma NoParam(raw: seq<u8>, p: nat)
    requires p <= |raw| && Params(raw, p) == []
    ensures !Next(raw, Some(p)).1.At?
  {
  }

  /** There is a field, and it is not empty. */
  predicate Present(fields: seq<seq<u8>>, i: nat) {
    i < |fields| && fields[i] != []
  }

  lemma GivenIff(raw: seq<u8>, p: nat, fields: seq<seq<u8>>)
    requires p <= |raw| && Params(raw, p) == fields
    ensures Given(Next(raw, Some(p)).1) <==> Present(fields, 0)
  {
    if fields == [] {
      NoParam(raw, p);
    } else {
      FirstParam(raw, p, fields);
    }
  }

  /** A reply without a count changes nothing. */
  lemma NoCount(x: Exchange, value: seq<u8>)
    requires NoStar(value) && (value == [] || value[0] == COMMA)
    ensures OnReply(x, ReplyPacket(value)) == x
  {
    ReplyParams(value);
    SplitHead(value);
    GivenIff(ReplyPacket(value), 0, Split(value));
  }

  /** A reply with a count but without a member's addresses only sets what is expected: no member is added,
      nothing reported, and the token stays where it is. */
  lemma IncompleteReply(x: Exchange, value: seq<u8>)
    requires NoStar(value) && value != [] && value[0] != COMMA && value[0] != 48
    requires !Present(Split(value), 1) || !Present(Split(value), 2)
    ensures OnReply(x, ReplyPacket(value)) == x.(expected := value[0] as int - 48)
  {
    var raw, fields := ReplyPacket(value), Split(value);
    ReplyParams(value);
    SplitHead(value);
    CountOf(raw, fields);
    var ptr := Next(raw, Some(0)).0;
    GivenIff(raw, ptr.value, fields[1..]);
    if Present(fields, 1) {
      FirstParam(raw, ptr.value, fields[1..]);
      assert fields[1..][1..] == fields[2..];
      GivenIff(raw, Next(raw, ptr).0.value, fields[2..]);
    }
  }

  lemma NoRoom(x: Exchange, raw: seq<u8>, ptr: Option<nat>, a: Answer)
    requires WellFormed(a) && |x.members| == MEMBERS_MAX && x.expected < MEMBERS_MAX
    requires Reads(raw, Next(raw, ptr).1, a.mac) && Reads(raw, Next(raw, Next(raw, ptr).0).1, a.id)
    ensures OnMember(x, raw, ptr) == x
  {
  }

  lemma FullReply(x: Exchange, raw: seq<u8>, k: nat, a: Answer)
    requires 1 <= k <= 9 && WellFormed(a) && |x.members| == MEMBERS_MAX
    requires Params(raw, 0) == [[48 + k], a.mac, a.id]
    ensures OnReply(x, raw) == x.(expected := k)
  {
    ThreeParams(raw, [48 + k], a.mac, a.id);
    CountOf(raw, [[48 + k], a.mac, a.id]);
    NoRoom(x.(expected := k), raw, Next(raw, Some(0)).0, a);
  }

  /** A full list refuses members, and is complete only if it is as long as expected. */
  lemma FullListRefuses(x: Exchange, k: nat, a: Answer)
    requires 1 <= k <= 9 && WellFormed(a) && |x.members| == MEMBERS_MAX
    ensures OnReply(x, AnswerPacket(k, a)) == x.(expected := k)
  {
    AnswerFields(k, a);
    ReplyParams(Params3(k, a));
    FullReply(x, AnswerPacket(k, a), k, a);
  }

  // ---------------------------------------------------------------- digits

  /** Characters that are no hexadecimal digits have no value below sixteen. */
  lemma HexDigitIff(c: u8)
    ensures Ascii2Nibble(c) < 16 <==> 48 <= c <= 57 || 65 <= c <= 70 || 97 <= c <= 102
    ensures Ascii2Nibble(c) <= 16
  {
  }
}
