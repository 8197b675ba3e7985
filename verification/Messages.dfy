/** DNS messages: sections 4.1.1 to 4.1.4 of RFC 1035 and sections 6.1.2 and
    6.1.3 of RFC 6891, as functions. `DnsParser` and `DnsEncoder` hold the
    step-by-step code and prove that it computes these functions. */
module Messages {
  import opened Octets
  import opened Results
  import opened Names
  import opened NameDecoding
  import opened Compression

  const TYPE_A: u16 := 1
  const TYPE_NS: u16 := 2
  const TYPE_CNAME: u16 := 5
  const TYPE_SOA: u16 := 6
  const TYPE_PTR: u16 := 12
  const TYPE_MX: u16 := 15
  const TYPE_TXT: u16 := 16
  const TYPE_AAAA: u16 := 28
  const TYPE_SRV: u16 := 33
  const TYPE_DNAME: u16 := 39
  const TYPE_OPT: u16 := 41
  const TYPE_RRSIG: u16 := 46
  const TYPE_NSEC: u16 := 47
  const TYPE_CAA: u16 := 257

  const RCODE_NXDOMAIN: byte := 3

  type Ipv4 = s: Bytes | |s| == 4 witness [0, 0, 0, 0]
  type Ipv6 = s: Bytes | |s| == 16 witness [0, 0, 0, 0, 0, 0, 0, 0, 0, 0, 0, 0, 0, 0, 0, 0]

  datatype Header = Header(
    id: u16, qr: bool, opcode: byte, aa: bool, tc: bool, rd: bool, ra: bool, ad: bool, cd: bool, rcode: byte)

  datatype Question = Question(name: Name, qtype: u16, qclass: u16)

  datatype OptOption = OptOption(code: u16, data: Bytes)

  datatype RData =
    | A(ip4: Ipv4)
    | Aaaa(ip6: Ipv6)
    | NameData(target: Name)
    | Mx(preference: u16, exchange: Name)
    | Soa(mname: Name, rname: Name, serial: u32, refresh: u32, retry: u32, expire: u32, minimum: u32)
    | Txt(strings: seq<Bytes>)
    | Srv(priority: u16, weight: u16, port: u16, target: Name)
    | Caa(caaFlags: byte, tag: Bytes, value: Bytes)
    | Rrsig(typeCovered: u16, algorithm: byte, labels: byte, originalTtl: u32, expiration: u32,
            inception: u32, keyTag: u16, signer: Name, signature: Bytes)
    | Nsec(next: Name, bitmaps: Bytes)
    | Raw(raw: Bytes)
    | Opt(udpSize: u16, extRcode: byte, version: byte, flags: u16, options: seq<OptOption>)

  datatype Record = Record(name: Name, rtype: u16, class_: u16, ttl: u32, data: RData)

  datatype Message = Message(
    header: Header, questions: seq<Question>, answers: seq<Record>, authority: seq<Record>, additional: seq<Record>)

  // ---- encoding ------------------------------------------------------------

  /** The length byte or field of a longer sequence wraps, as a cast does. */
  function Len8(s: Bytes): byte {
    |s| % 0x100
  }

  function Len16(n: nat): u16 {
    n % 0x1_0000
  }

  const EMPTY: Enc := Enc([], map[])

  /** A name written by a scratch encoder of its own. */
  function NameAlone(name: Name): Option<Bytes> {
    var w := PutName(EMPTY, name);
    if w.ok then Some(w.enc.out) else None
  }

  /** Both names of an SOA go through one scratch encoder, so the second may be
      compressed against the first, by an offset into the RDATA. */
  function SoaNames(mname: Name, rname: Name): Option<Bytes> {
    var m := PutName(EMPTY, mname);
    if !m.ok then None
    else
      var r := PutName(m.enc, rname);
      if r.ok then Some(r.enc.out) else None
  }

  function TxtBytes(strings: seq<Bytes>): Bytes {
    if strings == [] then [] else [Len8(strings[0])] + strings[0] + TxtBytes(strings[1..])
  }

  function OptionBytes(o: OptOption): Bytes {
    Be16(o.code) + Be16(Len16(|o.data|)) + o.data
  }

  function OptionsBytes(options: seq<OptOption>): Bytes {
    if options == [] then [] else OptionBytes(options[0]) + OptionsBytes(options[1..])
  }

  function Wrap(prefix: Bytes, middle: Option<Bytes>, suffix: Bytes): Option<Bytes> {
    if middle.None? then None else Some(prefix + middle.value + suffix)
  }

  function SoaTail(d: RData): Bytes
    requires d.Soa?
  {
    Be32(d.serial) + Be32(d.refresh) + Be32(d.retry) + Be32(d.expire) + Be32(d.minimum)
  }

  function SrvHead(d: RData): Bytes
    requires d.Srv?
  {
    Be16(d.priority) + Be16(d.weight) + Be16(d.port)
  }

  function RrsigHead(d: RData): Bytes
    requires d.Rrsig?
  {
    Be16(d.typeCovered) + [d.algorithm, d.labels] + Be32(d.originalTtl) + Be32(d.expiration)
    + Be32(d.inception) + Be16(d.keyTag)
  }

  function RDataBytes(d: RData): Option<Bytes> {
    match d
    case A(ip) => Some(ip)
    case Aaaa(ip) => Some(ip)
    case NameData(name) => NameAlone(name)
    case Mx(preference, exchange) => Wrap(Be16(preference), NameAlone(exchange), [])
    case Soa(mname, rname, _, _, _, _, _) => Wrap([], SoaNames(mname, rname), SoaTail(d))
    case Txt(strings) => Some(TxtBytes(strings))
    case Srv(_, _, _, target) => Wrap(SrvHead(d), NameAlone(target), [])
    case Caa(flags, tag, value) => Some([flags, Len8(tag)] + tag + value)
    case Rrsig(_, _, _, _, _, _, _, signer, signature) => Wrap(RrsigHead(d), NameAlone(signer), signature)
    case Nsec(next, bitmaps) => Wrap([], NameAlone(next), bitmaps)
    case Raw(raw) => Some(raw)
    case Opt(_, _, _, _, _) => None
  }

  /** An OPT record's ttl field (section 6.1.3 of RFC 6891). */
  function PackedTtl(d: RData): u32
    requires d.Opt?
  {
    (d.extRcode as int) * 0x100_0000 + (d.version as int) * 0x1_0000 + d.flags
  }

  /** The bytes of a record after its owner name and type. */
  function RecordTail(r: Record): Option<Bytes> {
    if r.rtype == TYPE_OPT && r.data.Opt? then
      var payload := OptionsBytes(r.data.options);
      Some(Be16(r.data.udpSize) + Be32(PackedTtl(r.data)) + Be16(Len16(|payload|)) + payload)
    else
      var rdata := RDataBytes(r.data);
      if rdata.None? then None
      else Some(Be16(r.class_) + Be32(r.ttl) + Be16(Len16(|rdata.value|)) + rdata.value)
  }

  function Append(e: Enc, more: Bytes): Enc {
    e.(out := e.out + more)
  }

  function PutQuestion(e: Enc, q: Question): Option<Enc> {
    var w := PutName(e, q.name);
    if w.ok then Some(Append(w.enc, Be16(q.qtype) + Be16(q.qclass))) else None
  }

  function PutRecord(e: Enc, r: Record): Option<Enc> {
    var w := PutName(e, r.name);
    var tail := RecordTail(r);
    if w.ok && tail.Some? then Some(Append(w.enc, Be16(r.rtype) + tail.value)) else None
  }

  function PutQuestions(e: Enc, qs: seq<Question>): Option<Enc>
    decreases |qs|
  {
    if qs == [] then Some(e)
    else
      var next := PutQuestion(e, qs[0]);
      if next.None? then None else PutQuestions(next.value, qs[1..])
  }

  function PutRecords(e: Enc, rs: seq<Record>): Option<Enc>
    decreases |rs|
  {
    if rs == [] then Some(e)
    else
      var next := PutRecord(e, rs[0]);
      if next.None? then None else PutRecords(next.value, rs[1..])
  }

  function Bit(b: bool, weight: nat): nat {
    if b then weight else 0
  }

  function FlagBits(h: Header): u16 {
    Bit(h.qr, 0x8000) + h.opcode % 0x10 * 0x800 + Bit(h.aa, 0x400) + Bit(h.tc, 0x200) + Bit(h.rd, 0x100)
    + Bit(h.ra, 0x80) + Bit(h.ad, 0x20) + Bit(h.cd, 0x10) + h.rcode % 0x10
  }

  function HeaderBytes(m: Message): (s: Bytes)
    ensures |s| == 12
  {
    Be16(m.header.id) + Be16(FlagBits(m.header)) + Be16(Len16(|m.questions|)) + Be16(Len16(|m.answers|))
    + Be16(Len16(|m.authority|)) + Be16(Len16(|m.additional|))
  }

  function PutBody(e: Enc, m: Message): Option<Enc> {
    var q := PutQuestions(e, m.questions);
    if q.None? then None
    else
      var an := PutRecords(q.value, m.answers);
      if an.None? then None
      else
        var ns := PutRecords(an.value, m.authority);
        if ns.None? then None else PutRecords(ns.value, m.additional)
  }

  /** `Message::encode`; None is an encoding error. */
  function Encode(m: Message): Option<Bytes> {
    var e := PutBody(Enc(HeaderBytes(m), map[]), m);
    if e.None? then None else Some(e.value.out)
  }

  // ---- parsing -------------------------------------------------------------

  function U16At(buf: Bytes, pos: nat): Result<u16, ParseError> {
    if pos + 2 > |buf| then Err(Truncated) else Ok(At16(buf, pos))
  }

  function U32At(buf: Bytes, pos: nat): Result<u32, ParseError> {
    if pos + 4 > |buf| then Err(Truncated) else Ok(At32(buf, pos))
  }

  function ParseTxt(s: Bytes): Result<seq<Bytes>, ParseError> {
    if s == [] then Ok([])
    else if |s| - 1 < s[0] then Err(Truncated)
    else
      var rest :- ParseTxt(s[1 + s[0]..]);
      Ok([s[1..1 + s[0]]] + rest)
  }

  /** Trailing bytes that cannot hold an option header are ignored. */
  function ParseOptions(s: Bytes): Result<seq<OptOption>, ParseError> {
    if |s| < 4 then Ok([])
    else
      var len := At16(s, 2);
      if |s| - 4 < len then Err(Truncated)
      else
        var rest :- ParseOptions(s[4 + len..]);
        Ok([OptOption(At16(s, 0), s[4..4 + len])] + rest)
  }

  /** The five SOA numbers are read without a bounds check. */
  function ParseSoa(buf: Bytes, start: nat): Result<RData, ParseError> {
    var (mname, p1) :- NameAt(buf, start);
    var (rname, p) :- NameAt(buf, p1);
    if p + 20 > |buf| then Err(Panic)
    else Ok(Soa(mname, rname, At32(buf, p), At32(buf, p + 4), At32(buf, p + 8), At32(buf, p + 12), At32(buf, p + 16)))
  }

  function ParseRrsig(buf: Bytes, start: nat, len: nat): Result<RData, ParseError>
    requires start + len <= |buf|
  {
    if len < 18 then Err(Truncated)
    else
      var (signer, p) :- NameAt(buf, start + 18);
      if p > start + len then Err(Panic)
      else Ok(Rrsig(At16(buf, start), buf[start + 2], buf[start + 3], At32(buf, start + 4), At32(buf, start + 8),
                    At32(buf, start + 12), At16(buf, start + 16), signer, buf[p..start + len]))
  }

  function ParseNsec(buf: Bytes, start: nat, len: nat): Result<RData, ParseError>
    requires start + len <= |buf|
  {
    var (next, p) :- NameAt(buf, start);
    if p > start + len then Err(Panic) else Ok(Nsec(next, buf[p..start + len]))
  }

  function ParseCaa(s: Bytes): Result<RData, ParseError> {
    if |s| < 2 || |s| - 2 < s[1] then Err(Truncated)
    else Ok(Caa(s[0], s[2..2 + s[1]], s[2 + s[1]..]))
  }

  predicate IsNameType(rtype: u16) {
    rtype == TYPE_NS || rtype == TYPE_CNAME || rtype == TYPE_PTR || rtype == TYPE_DNAME
  }

  function ParseRData(buf: Bytes, start: nat, len: nat, rtype: u16): Result<RData, ParseError>
    requires start + len <= |buf|
  {
    var s := buf[start..start + len];
    if rtype == TYPE_A then
      if len != 4 then Err(BadAddressLength) else Ok(A(s))
    else if rtype == TYPE_AAAA then
      if len != 16 then Err(BadAddressLength) else Ok(Aaaa(s))
    else if IsNameType(rtype) then
      var (name, _) :- NameAt(buf, start);
      Ok(NameData(name))
    else if rtype == TYPE_MX then
      if len < 2 then Err(Truncated)
      else
        var (exchange, _) :- NameAt(buf, start + 2);
        Ok(Mx(At16(s, 0), exchange))
    else if rtype == TYPE_SOA then ParseSoa(buf, start)
    else if rtype == TYPE_TXT then
      var strings :- ParseTxt(s);
      Ok(Txt(strings))
    else if rtype == TYPE_SRV then
      if len < 6 then Err(Truncated)
      else
        var (target, _) :- NameAt(buf, start + 6);
        Ok(Srv(At16(s, 0), At16(s, 2), At16(s, 4), target))
    else if rtype == TYPE_CAA then ParseCaa(s)
    else if rtype == TYPE_RRSIG then ParseRrsig(buf, start, len)
    else if rtype == TYPE_NSEC then ParseNsec(buf, start, len)
    else if rtype == TYPE_OPT then
      var options :- ParseOptions(s);
      Ok(Opt(0, 0, 0, 0, options))
    else Ok(Raw(s))
  }

  function RecordAt(buf: Bytes, pos: nat): Result<(Record, nat), ParseError> {
    var (name, p) :- NameAt(buf, pos);
    var rtype :- U16At(buf, p);
    var class_ :- U16At(buf, p + 2);
    var ttl :- U32At(buf, p + 4);
    var rdlen :- U16At(buf, p + 8);
    var start := p + 10;
    if start + rdlen > |buf| then Err(RdataPastEnd)
    else
      var data :- ParseRData(buf, start, rdlen, rtype);
      Ok((Record(name, rtype, class_, ttl, data), start + rdlen))
  }

  function QuestionAt(buf: Bytes, pos: nat): Result<(Question, nat), ParseError> {
    var (name, p) :- NameAt(buf, pos);
    var qtype :- U16At(buf, p);
    var qclass :- U16At(buf, p + 2);
    Ok((Question(name, qtype, qclass), p + 4))
  }

  function QuestionsAt(buf: Bytes, pos: nat, n: nat): Result<(seq<Question>, nat), ParseError>
    decreases n
  {
    if n == 0 then Ok(([], pos))
    else
      var (q, p) :- QuestionAt(buf, pos);
      var (rest, end) :- QuestionsAt(buf, p, n - 1);
      Ok(([q] + rest, end))
  }

  function RecordsAt(buf: Bytes, pos: nat, n: nat): Result<(seq<Record>, nat), ParseError>
    decreases n
  {
    if n == 0 then Ok(([], pos))
    else
      var (r, p) :- RecordAt(buf, pos);
      var (rest, end) :- RecordsAt(buf, p, n - 1);
      Ok(([r] + rest, end))
  }

  /** An additional OPT record gets its fields back from class and ttl. */
  function Recovered(r: Record): Record {
    if r.rtype == TYPE_OPT && r.data.Opt? then
      r.(data := Opt(r.class_, r.ttl / 0x100_0000, r.ttl / 0x1_0000 % 0x100, r.ttl % 0x1_0000, r.data.options))
    else r
  }

  function RecoverAll(rs: seq<Record>): (out: seq<Record>)
    ensures |out| == |rs|
  {
    if rs == [] then [] else [Recovered(rs[0])] + RecoverAll(rs[1..])
  }

  /** The first additional record of type OPT. */
  function Edns(rs: seq<Record>): Option<Record> {
    if rs == [] then None else if rs[0].rtype == TYPE_OPT then Some(rs[0]) else Edns(rs[1..])
  }

  /** The 4-bit rcode extended from OPT: eight of the twelve bits fit. */
  function FoldedRcode(rcode: byte, rs: seq<Record>): byte {
    var opt := Edns(rs);
    if opt.Some? && opt.value.data.Opt? then rcode % 0x10 + opt.value.data.extRcode % 0x10 * 0x10
    else rcode % 0x10
  }

  function FlagSet(flags: u16, weight: nat): bool
    requires weight > 0
  {
    flags / weight % 2 == 1
  }

  function HeaderOf(id: u16, flags: u16): Header {
    Header(id, FlagSet(flags, 0x8000), flags / 0x800 % 0x10, FlagSet(flags, 0x400), FlagSet(flags, 0x200),
           FlagSet(flags, 0x100), FlagSet(flags, 0x80), FlagSet(flags, 0x20), FlagSet(flags, 0x10), flags % 0x10)
  }

  /** `Message::parse`. */
  function Parse(buf: Bytes): Result<Message, ParseError> {
    if |buf| < 12 then Err(ShortMessage)
    else
      var (qs, p1) :- QuestionsAt(buf, 12, At16(buf, 4));
      var (an, p2) :- RecordsAt(buf, p1, At16(buf, 6));
      var (ns, p3) :- RecordsAt(buf, p2, At16(buf, 8));
      var (ar, _) :- RecordsAt(buf, p3, At16(buf, 10));
      var header := HeaderOf(At16(buf, 0), At16(buf, 2));
      var additional := RecoverAll(ar);
      Ok(Message(header.(rcode := FoldedRcode(header.rcode, additional)), qs, an, ns, additional))
  }
}
