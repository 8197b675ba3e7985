/** The parser as it runs: cursors that advance, and loops over counts. */
module DnsParser {
  import opened Octets
  import opened Results
  import opened NameDecoding
  import opened Messages
  import opened WireGrammar

  class Cursor {
    const buf: Bytes
    var pos: nat

    constructor (buf: Bytes)
      ensures this.buf == buf && pos == 0
    {
      this.buf := buf;
      pos := 0;
    }

    function Remaining(): nat
      reads this
    {
      if pos <= |buf| then |buf| - pos else 0
    }

    method U8() returns (r: Result<byte, ParseError>)
      modifies this
      ensures r == if old(Remaining()) < 1 then Err(Truncated) else Ok(buf[old(pos)])
      ensures pos == if r.Ok? then old(pos) + 1 else old(pos)
    {
      if Remaining() < 1 {
        return Err(Truncated);
      }
      r := Ok(buf[pos]);
      pos := pos + 1;
    }

    method U16() returns (r: Result<u16, ParseError>)
      modifies this
      ensures r == U16At(buf, old(pos))
      ensures pos == if r.Ok? then old(pos) + 2 else old(pos)
    {
      if Remaining() < 2 {
        return Err(Truncated);
      }
      r := Ok(At16(buf, pos));
      pos := pos + 2;
    }

    method U32() returns (r: Result<u32, ParseError>)
      modifies this
      ensures r == U32At(buf, old(pos))
      ensures pos == if r.Ok? then old(pos) + 4 else old(pos)
    {
      if Remaining() < 4 {
        return Err(Truncated);
      }
      r := Ok(At32(buf, pos));
      pos := pos + 4;
    }

    method Take(n: nat) returns (r: Result<Bytes, ParseError>)
      requires pos <= |buf|
      modifies this
      ensures r == if old(Remaining()) < n then Err(Truncated) else Ok(buf[old(pos)..old(pos) + n])
      ensures pos == if r.Ok? then old(pos) + n else old(pos)
    {
      if Remaining() < n {
        return Err(Truncated);
      }
      r := Ok(buf[pos..pos + n]);
      pos := pos + n;
    }
  }

  lemma TxtAt(s: Bytes)
    ensures s == [] ==> ParseTxt(s) == Ok([])
    ensures s != [] && |s| - 1 < s[0] ==> ParseTxt(s) == Err(Truncated)
    ensures s != [] && |s| - 1 >= s[0] ==>
      ParseTxt(s) == Joined([s[1..1 + s[0]]], ParseTxt(s[1 + s[0]..]))
  {
  }

  lemma JoinedTwice<T>(xs: seq<T>, x: T, r: Result<seq<T>, ParseError>)
    ensures Joined(xs, Joined([x], r)) == Joined(xs + [x], r)
  {
    assert r.Ok? ==> xs + ([x] + r.value) == (xs + [x]) + r.value;
  }

  lemma JoinedNothing<T>(r: Result<seq<T>, ParseError>)
    ensures Joined([], r) == r
  {
    assert r.Ok? ==> [] + r.value == r.value;
  }

  lemma JoinedEnd<T>(xs: seq<T>)
    ensures Joined(xs, Ok([])) == Ok(xs)
  {
    assert xs + [] == xs;
  }

  lemma JoinedError<T>(xs: seq<T>, e: ParseError)
    ensures Joined(xs, Err(e)) == Err(e)
  {
  }

  method ReadTxt(c: Cursor) returns (r: Result<seq<Bytes>, ParseError>)
    requires c.pos <= |c.buf|
    modifies c
    ensures r == ParseTxt(old(c.buf[c.pos..]))
  {
    hide ParseTxt;
    var strings: seq<Bytes> := [];
    ghost var all := ParseTxt(c.buf[c.pos..]);
    assert all.Ok? ==> [] + all.value == all.value;
    while c.Remaining() > 0
      invariant c.pos <= |c.buf|
      invariant all == Joined(strings, ParseTxt(c.buf[c.pos..]))
      decreases |c.buf| - c.pos
    {
      ghost var s := c.buf[c.pos..];
      TxtAt(s);
      var byteRead := c.U8();
      var l := byteRead.value;
      var piece :- c.Take(l);
      assert s[1..1 + l] == piece && s[1 + l..] == c.buf[c.pos..];
      JoinedTwice(strings, piece, ParseTxt(c.buf[c.pos..]));
      strings := strings + [piece];
    }
    TxtAt(c.buf[c.pos..]);
    assert strings + [] == strings;
    r := Ok(strings);
  }

  function Joined<T>(xs: seq<T>, r: Result<seq<T>, ParseError>): Result<seq<T>, ParseError> {
    if r.Ok? then Ok(xs + r.value) else r
  }

  lemma At16Drop(buf: Bytes, pos: nat, i: nat)
    requires pos + i + 2 <= |buf|
    ensures At16(buf[pos..], i) == At16(buf, pos + i)
  {
  }

  lemma OptionsAt(s: Bytes)
    ensures |s| < 4 ==> ParseOptions(s) == Ok([])
    ensures |s| >= 4 && |s| - 4 < At16(s, 2) ==> ParseOptions(s) == Err(Truncated)
    ensures |s| >= 4 && |s| - 4 >= At16(s, 2) ==>
      var len := At16(s, 2);
      ParseOptions(s) == Joined([OptOption(At16(s, 0), s[4..4 + len])], ParseOptions(s[4 + len..]))
  {
    hide At16;
  }

  /** One round of the option loop, at a position of the whole buffer. */
  lemma OptionAt(buf: Bytes, pos: nat)
    requires pos + 4 <= |buf|
    ensures var len := At16(buf, pos + 2);
      if pos + 4 + len > |buf| then ParseOptions(buf[pos..]) == Err(Truncated)
      else
        ParseOptions(buf[pos..]) ==
        Joined([OptOption(At16(buf, pos), buf[pos + 4..pos + 4 + len])], ParseOptions(buf[pos + 4 + len..]))
  {
    hide At16, ParseOptions, Joined;
    var s, len := buf[pos..], At16(buf, pos + 2);
    OptionsAt(s);
    At16Drop(buf, pos, 0);
    At16Drop(buf, pos, 2);
    if pos + 4 + len <= |buf| {
      assert s[4..4 + len] == buf[pos + 4..pos + 4 + len] && s[4 + len..] == buf[pos + 4 + len..];
    }
  }

  method ReadOptions(c: Cursor) returns (r: Result<seq<OptOption>, ParseError>)
    requires c.pos <= |c.buf|
    modifies c
    ensures r == ParseOptions(old(c.buf[c.pos..]))
  {
    hide At16, ParseOptions, Joined;
    var options: seq<OptOption> := [];
    ghost var all := ParseOptions(c.buf[c.pos..]);
    JoinedNothing(all);
    while c.Remaining() >= 4
      invariant c.pos <= |c.buf|
      invariant all == Joined(options, ParseOptions(c.buf[c.pos..]))
      decreases |c.buf| - c.pos
    {
      OptionAt(c.buf, c.pos);
      JoinedError(options, Truncated);
      var codeRead := c.U16();
      var lenRead := c.U16();
      var code, len := codeRead.value, lenRead.value;
      var data :- c.Take(len);
      var o := OptOption(code, data);
      JoinedTwice(options, o, ParseOptions(c.buf[c.pos..]));
      options := options + [o];
    }
    OptionsAt(c.buf[c.pos..]);
    JoinedEnd(options);
    r := Ok(options);
  }

  method ReadRData(buf: Bytes, start: nat, len: nat, rtype: u16) returns (r: Result<RData, ParseError>)
    requires start + len <= |buf|
    ensures r == ParseRData(buf, start, len, rtype)
    ensures forall d :: r == Ok(d) <==> RDataIs(buf, start, len, rtype, d)
    ensures r == Err(Panic) <==> RDataPanics(buf, start, len, rtype)
  {
    hide NameAt, ParseTxt, ParseOptions, At32, RDataIs, RDataPanics;
    forall d ensures ParseRData(buf, start, len, rtype) == Ok(d) <==> RDataIs(buf, start, len, rtype, d) {
      RDataExactly(buf, start, len, rtype, d);
    }
    RDataPanicsExactly(buf, start, len, rtype);
    var s := buf[start..start + len];
    var c := new Cursor(s);
    assert s[0..] == s;
    if rtype == TYPE_TXT {
      var strings :- ReadTxt(c);
      return Ok(Txt(strings));
    } else if rtype == TYPE_OPT {
      var options :- ReadOptions(c);
      return Ok(Opt(0, 0, 0, 0, options));
    } else if IsNameType(rtype) {
      var named :- ReadName(buf, start);
      var name := named.0;
      return Ok(NameData(name));
    } else if rtype == TYPE_MX {
      var preference :- c.U16();
      var named :- ReadName(buf, start + 2);
      var exchange := named.0;
      return Ok(Mx(preference, exchange));
    } else if rtype == TYPE_SRV {
      var priority :- c.U16();
      var weight :- c.U16();
      var port :- c.U16();
      var named :- ReadName(buf, start + 6);
      var target := named.0;
      return Ok(Srv(priority, weight, port, target));
    } else if rtype == TYPE_CAA {
      var flags :- c.U8();
      var tagLen :- c.U8();
      var tag :- c.Take(tagLen);
      // what remains can always be taken
      var value := c.Take(c.Remaining());
      assert value.value == s[2 + tagLen..];
      return Ok(Caa(flags, tag, value.value));
    }
    r := ReadRDataRest(buf, start, len, rtype, c);
  }

  /** The remaining types: addresses, SOA, RRSIG, NSEC and opaque RDATA. */
  method ReadRDataRest(buf: Bytes, start: nat, len: nat, rtype: u16, c: Cursor) returns (r: Result<RData, ParseError>)
    requires start + len <= |buf| && c.buf == buf[start..start + len] && c.pos == 0
    requires rtype != TYPE_TXT && rtype != TYPE_OPT && rtype != TYPE_MX && rtype != TYPE_SRV && rtype != TYPE_CAA
    requires !IsNameType(rtype)
    modifies c
    ensures r == ParseRData(buf, start, len, rtype)
  {
    hide NameAt, At32, At16;
    if rtype == TYPE_A {
      if len != 4 {
        return Err(BadAddressLength);
      }
      var b := c.Take(4);
      assert b.value == c.buf;
      return Ok(A(b.value));
    } else if rtype == TYPE_AAAA {
      if len != 16 {
        return Err(BadAddressLength);
      }
      var b := c.Take(16);
      assert b.value == c.buf;
      return Ok(Aaaa(b.value));
    } else if rtype == TYPE_SOA {
      var first :- ReadName(buf, start);
      var mname, p1 := first.0, first.1;
      var second :- ReadName(buf, p1);
      var rname, p := second.0, second.1;
      if p + 20 > |buf| {
        return Err(Panic);
      }
      return Ok(
        Soa(mname, rname, At32(buf, p), At32(buf, p + 4), At32(buf, p + 8), At32(buf, p + 12), At32(buf, p + 16)));
    } else if rtype == TYPE_RRSIG {
      r := ReadRrsig(buf, start, len, c);
    } else if rtype == TYPE_NSEC {
      var named :- ReadName(buf, start);
      var next, p := named.0, named.1;
      if p > start + len {
        return Err(Panic);
      }
      return Ok(Nsec(next, buf[p..start + len]));
    } else {
      return Ok(Raw(buf[start..start + len]));
    }
  }

  method ReadRrsig(buf: Bytes, start: nat, len: nat, c: Cursor) returns (r: Result<RData, ParseError>)
    requires start + len <= |buf| && c.buf == buf[start..start + len] && c.pos == 0
    modifies c
    ensures r == ParseRrsig(buf, start, len)
  {
    hide NameAt;
    assert forall i :: 0 <= i < len ==> c.buf[i] == buf[start + i];
    var typeCovered :- c.U16();
    var algorithm :- c.U8();
    var labels :- c.U8();
    var originalTtl :- c.U32();
    var expiration :- c.U32();
    var inception :- c.U32();
    var keyTag :- c.U16();
    var named :- ReadName(buf, start + 18);
    var signer, p := named.0, named.1;
    if p > start + len {
      return Err(Panic);
    }
    r := Ok(Rrsig(
      typeCovered, algorithm, labels, originalTtl, expiration, inception, keyTag, signer, buf[p..start + len]));
  }

  method ReadRecord(buf: Bytes, pos: nat) returns (r: Result<(Record, nat), ParseError>)
    ensures r == RecordAt(buf, pos)
  {
    hide NameAt, ParseRData, At16, At32;
    var named :- ReadName(buf, pos);
    var name, p := named.0, named.1;
    var rtype :- U16At(buf, p);
    var class_ :- U16At(buf, p + 2);
    var ttl :- U32At(buf, p + 4);
    var rdlen :- U16At(buf, p + 8);
    var start := p + 10;
    if start + rdlen > |buf| {
      return Err(RdataPastEnd);
    }
    var data :- ReadRData(buf, start, rdlen, rtype);
    r := Ok((Record(name, rtype, class_, ttl, data), start + rdlen));
  }

  method ReadRecords(c: Cursor, n: nat) returns (r: Result<seq<Record>, ParseError>)
    modifies c
    ensures r.Ok? == RecordsAt(c.buf, old(c.pos), n).Ok?
    ensures r.Ok? ==> RecordsAt(c.buf, old(c.pos), n) == Ok((r.value, c.pos))
    ensures r.Err? ==> RecordsAt(c.buf, old(c.pos), n) == Err(r.error)
  {
    hide RecordAt;
    var records: seq<Record> := [];
    ghost var all := RecordsAt(c.buf, c.pos, n);
    assert all.Ok? ==> [] + all.value.0 == all.value.0;
    for i := 0 to n
      invariant var rest := RecordsAt(c.buf, c.pos, n - i);
        all == if rest.Ok? then Ok((records + rest.value.0, rest.value.1)) else rest
    {
      ghost var rest := RecordsAt(c.buf, c.pos, n - i);
      var item :- ReadRecord(c.buf, c.pos);
      var rec, p := item.0, item.1;
      ghost var tail := RecordsAt(c.buf, p, n - i - 1);
      assert tail.Ok? ==> records + ([rec] + tail.value.0) == (records + [rec]) + tail.value.0;
      c.pos := p;
      records := records + [rec];
    }
    assert records + [] == records;
    r := Ok(records);
  }

  /** The additional section, with OPT fields recovered record by record. */
  method RecoverOpt(rs: seq<Record>) returns (out: seq<Record>)
    ensures out == RecoverAll(rs)
  {
    out := [];
    for i := 0 to |rs|
      invariant out + RecoverAll(rs[i..]) == RecoverAll(rs)
    {
      assert rs[i..][0] == rs[i] && rs[i..][1..] == rs[i + 1..];
      out := out + [Recovered(rs[i])];
    }
    assert rs[|rs|..] == [];
  }

  method ReadQuestions(c: Cursor, n: nat) returns (r: Result<seq<Question>, ParseError>)
    modifies c
    ensures r.Ok? == QuestionsAt(c.buf, old(c.pos), n).Ok?
    ensures r.Ok? ==> QuestionsAt(c.buf, old(c.pos), n) == Ok((r.value, c.pos))
    ensures r.Err? ==> QuestionsAt(c.buf, old(c.pos), n) == Err(r.error)
  {
    hide NameAt, At16;
    var questions: seq<Question> := [];
    ghost var all := QuestionsAt(c.buf, c.pos, n);
    assert all.Ok? ==> [] + all.value.0 == all.value.0;
    for i := 0 to n
      invariant var rest := QuestionsAt(c.buf, c.pos, n - i);
        all == if rest.Ok? then Ok((questions + rest.value.0, rest.value.1)) else rest
    {
      ghost var rest := QuestionsAt(c.buf, c.pos, n - i);
      ghost var one := QuestionAt(c.buf, c.pos);
      var named :- ReadName(c.buf, c.pos);
      var name, p := named.0, named.1;
      c.pos := p;
      var qtype :- c.U16();
      var qclass :- c.U16();
      var q := Question(name, qtype, qclass);
      assert one == Ok((q, c.pos));
      ghost var tail := QuestionsAt(c.buf, c.pos, n - i - 1);
      assert tail.Ok? ==> questions + ([q] + tail.value.0) == (questions + [q]) + tail.value.0;
      questions := questions + [q];
    }
    assert questions + [] == questions;
    r := Ok(questions);
  }

  /** `Message::parse`. */
  method ParseMessage(buf: Bytes) returns (r: Result<Message, ParseError>)
    ensures r == Parse(buf)
    ensures forall m :: r == Ok(m) <==> MessageIs(buf, m)
  {
    hide QuestionsAt, RecordsAt, RecoverAll, FoldedRcode, HeaderOf, At16, MessageIs;
    forall m ensures Parse(buf) == Ok(m) <==> MessageIs(buf, m) {
      ParseExactly(buf, m);
    }
    var c := new Cursor(buf);
    if c.Remaining() < 12 {
      return Err(ShortMessage);
    }
    // twelve bytes are there, so none of these reads fails
    var id := c.U16();
    var flags := c.U16();
    var qd := c.U16();
    var an := c.U16();
    var ns := c.U16();
    var ar := c.U16();
    var header := HeaderOf(id.value, flags.value);
    var questions :- ReadQuestions(c, qd.value);
    var answers :- ReadRecords(c, an.value);
    var authority :- ReadRecords(c, ns.value);
    var additional :- ReadRecords(c, ar.value);
    var recovered := RecoverOpt(additional);
    header := header.(rcode := FoldedRcode(header.rcode, recovered));
    r := Ok(Message(header, questions, answers, authority, recovered));
  }
}
