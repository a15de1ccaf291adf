/** The group-info exchange as the source runs it: GroupInfo's member array filled in place, the parser case
that reads a reply, and the request that takes the token. Proved against Group.dfy. */
module GroupExchange {
  import opened Nmea
  import opened Options
  import opened NmeaParams
  import opened PicLink
  import opened Serial
  import opened Group

  /** main/comms/GroupInfo.cpp */
  class GroupInfo {
    const groupMembers: array<Member>
    var membersNum: nat
    var membersExpecNum: int

    ghost predicate Valid()
      reads this
    {
      groupMembers.Length == MEMBERS_MAX && membersNum <= MEMBERS_MAX
    }

    function Contents(): seq<Member>
      requires membersNum <= groupMembers.Length
      reads this, groupMembers
    {
      groupMembers[..membersNum]
    }

    constructor ()
      ensures Valid() && Contents() == [] && membersExpecNum == 0
      ensures fresh(groupMembers)
    {
      groupMembers := new Member[MEMBERS_MAX](_ => Member([], []));
      membersNum, membersExpecNum := 0, 0;
    }

    /** The conversion loops: two digits to a byte. */
    method Convert(text: seq<u8>) returns (bytes: seq<u8>)
      ensures bytes == DecodePairs(text)
    {
      bytes := [];
      for i := 0 to |text| / 2
        invariant bytes == DecodePairs(text)[..i]
      {
        bytes := bytes + [Ascii2Byte(text[2 * i], text[2 * i + 1])];
      }
    }

    method NewMember(mac: seq<u8>, addr: seq<u8>) returns (added: bool)
      requires Valid()
      modifies this`membersNum, groupMembers
      ensures Valid()
      ensures added == (old(membersNum) < MEMBERS_MAX)
      ensures Contents() == if added then old(Contents()) + [Member(DecodePairs(mac), DecodePairs(addr))]
                            else old(Contents())
    {
      if membersNum == MEMBERS_MAX {
        return false;
      }
      var m := Convert(mac);
      var id := Convert(addr);
      groupMembers[membersNum] := Member(m, id);
      membersNum := membersNum + 1;
      added := true;
    }

    method Clear()
      requires Valid()
      modifies this`membersNum
      ensures Valid() && Contents() == []
    {
      membersNum := 0;
    }

    method IsComplete() returns (complete: bool)
      requires Valid()
      ensures complete == (membersExpecNum != 0 && membersExpecNum == |Contents()|)
    {
      if membersExpecNum == 0 {
        complete := false;
      } else if membersExpecNum == membersNum {
        complete := true;
      } else {
        complete := false;
      }
    }
  }

  /** The token, the list, and what has been sent: requests to the PIC, reports to the app. */
  class Exchanger {
    const group: GroupInfo
    var token: bool
    var asked: nat
    var reports: seq<seq<Member>>

    ghost predicate Valid()
      reads this, group
    {
      group.Valid()
    }

    ghost function Value(): Exchange
      requires Valid()
      reads this, group, group.groupMembers
    {
      Exchange(token, group.Contents(), group.membersExpecNum, asked, reports)
    }

    constructor ()
      ensures Valid() && Value() == Exchange(true, [], 0, 0, [])
      ensures fresh(group) && fresh(group.groupMembers)
    {
      var g := new GroupInfo();
      group, token, asked, reports := g, true, 0, [];
    }

    /** `requestGroupInfo`; the result says whether the token could be taken. */
    method RequestGroupInfo() returns (taken: bool)
      requires Valid()
      modifies this, group
      ensures Valid() && taken == old(token)
      ensures Value() == OnRequest(old(Value()))
    {
      taken := token;
      if token {
        token := false;
        group.Clear();
        asked := asked + 1;
      }
    }

    /** `sendGroupInfo`, then `unlock_mut_group`. */
    method SendGroupInfo()
      requires Valid()
      modifies this
      ensures Valid() && Value() == Report(old(Value()))
    {
      reports := reports + [group.groupMembers[..group.membersNum]];
      token := true;
    }

    /** The PICCOMMS_KN_SESS_SPK case of `parsePkt`, on a packet as `parseArray` leaves it. Copying an address
        takes as many bytes as an address has, however long the field is. */
    method ParseReply(pkt: NmeaPkt)
      requires Valid() && pkt.raw.Length == SERIAL_RAW_MAX_LEN
      requires 0 < pkt.rawLen <= SERIAL_RAW_MAX_LEN && pkt.nextParamPtr == Some(0)
      requires pkt.raw[pkt.rawLen - 1] == NUL && NUL !in pkt.raw[..pkt.rawLen - 1]
      requires Iterable(pkt.raw[..pkt.rawLen])
      modifies this, group, group.groupMembers, pkt`nextParamPtr
      ensures Valid()
      ensures Value() == OnReply(old(Value()), pkt.raw[..pkt.rawLen])
    {
      var count := pkt.NextParam();
      if !count.At? || count.length == 0 {
        return;
      }
      NextAdvances(pkt.raw[..pkt.rawLen], 0);
      group.membersExpecNum := pkt.raw[count.start] as int - 48;
      if pkt.raw[count.start] == 48 {
        SendGroupInfo();
        return;
      }
      ParseMember(pkt);
    }

    /** The rest of the case: the member's MAC and KN address. */
    method ParseMember(pkt: NmeaPkt)
      requires Valid() && pkt.raw.Length == SERIAL_RAW_MAX_LEN
      requires 0 < pkt.rawLen <= SERIAL_RAW_MAX_LEN && pkt.nextParamPtr.Some? && pkt.nextParamPtr.value < pkt.rawLen
      requires pkt.raw[pkt.rawLen - 1] == NUL && NUL !in pkt.raw[..pkt.rawLen - 1]
      requires Iterable(pkt.raw[..pkt.rawLen])
      modifies this, group, group.groupMembers, pkt`nextParamPtr
      ensures Valid()
      ensures Value() == OnMember(old(Value()), pkt.raw[..pkt.rawLen], old(pkt.nextParamPtr))
    {
      var param := pkt.NextParam();
      if !param.At? || param.length == 0 {
        return;
      }
      var mac := CopyFrom(pkt, param.start, MAC_DIGITS);
      param := pkt.NextParam();
      if !param.At? || param.length == 0 {
        return;
      }
      var id := CopyFrom(pkt, param.start, ID_DIGITS);
      AddAndReport(mac, id);
    }

    method AddAndReport(mac: seq<u8>, id: seq<u8>)
      requires Valid()
      modifies this, group, group.groupMembers
      ensures Valid()
      ensures var z := AddMember(old(Value()), Member(DecodePairs(mac), DecodePairs(id)));
              Value() == if Complete(z) then Report(z) else z
    {
      var _ := group.NewMember(mac, id);
      var complete := group.IsComplete();
      if complete {
        SendGroupInfo();
      }
    }
  }

  /** `std::copy` of `n` bytes of the packet. */
  method CopyFrom(pkt: NmeaPkt, at: nat, n: nat) returns (text: seq<u8>)
    requires pkt.rawLen <= pkt.raw.Length
    ensures text == Slice(pkt.raw[..pkt.rawLen], at, n)
  {
    if at + n <= pkt.rawLen {
      text := pkt.raw[at..at + n];
    } else {
      text := [];
    }
  }

  /** Every parameter has an end, as in every encoded packet (`NmeaParams.AlwaysDelimited`). */
  ghost predicate Iterable(raw: seq<u8>) {
    forall p | 0 <= p < |raw| :: Find(raw, COMMA, p).Some? ==> Next(raw, Some(p)).1.At?
  }

  /** A reply as the PIC sends it satisfies what `ParseReply` asks for. */
  lemma AnswersAreIterable(k: nat, a: Answer)
    requires 1 <= k <= 9 && WellFormed(a)
    ensures var raw := AnswerPacket(k, a);
            && 0 < |raw| <= SERIAL_RAW_MAX_LEN && raw[|raw| - 1] == NUL && NUL !in raw[..|raw| - 1]
            && Iterable(raw) && Accepts(raw) && PageOf(raw) == KN_SESS_SPK
  {
    var params := Some(Params3(k, a));
    AnswerFields(k, a);
    PacketText(KN_SESS_SPK, params);
    var text := Body(KN_SESS_SPK, params) + [STAR] + Hex2(XorAll(Body(KN_SESS_SPK, params)));
    assert AnswerPacket(k, a)[..|AnswerPacket(k, a)| - 1] == [DOLLAR] + text;
    assert |Params3(k, a)| == 21;
    PacketParses(KN_SESS_SPK, params);
    forall p | 0 <= p < |AnswerPacket(k, a)|
      ensures Find(AnswerPacket(k, a), COMMA, p).Some? ==> Next(AnswerPacket(k, a), Some(p)).1.At?
    {
      AlwaysDelimited(KN_SESS_SPK, params, p);
    }
  }
}
