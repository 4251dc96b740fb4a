/** Requests and GET responses as bytes: what the client writes, what the server reads. */
module Codec {
  import opened Base
  import opened Arithmetic
  import opened Engine
  import opened Packets
  import opened WriterModel
  import opened ByteStreamModel

  const CONFIG_KEY_LENGTH := 0xff
  const CONFIG_VALUE_LENGTH := 0xfffff

  // protocol::Commands
  const SET := 1
  const DEL := 2
  const ADD := 3
  const REPLACE := 4
  const APPEND := 5
  const PREPEND := 6
  const CAS := 7
  const INCR := 8
  const DECR := 9
  const GET := 10
  const RESULT_STORED := 12
  const RESULT_NOT_STORED := 13
  const RESULT_EXISTS := 14
  const RESULT_NOT_FOUND := 15
  const RESULT_DELETED := 16
  const RESULT_GET := 18
  const RESULT_ERROR_OOM := 19

  function CommandOf(op: Op): nat {
    match op {
      case Set(_, _) => SET
      case Del(_) => DEL
      case Add(_, _) => ADD
      case Replace(_, _) => REPLACE
      case Append(_, _) => APPEND
      case Prepend(_, _) => PREPEND
      case Cas(_, _, _) => CAS
      case Incr(_, _) => INCR
      case Decr(_, _) => DECR
      case Get(_) => GET
    }
  }

  predicate ItemFits(item: Item) {
    |item.value| <= CONFIG_VALUE_LENGTH && item.expiration < U32 && item.flags < U32
  }

  /** What a client accepts for sending; all numbers are machine words. */
  predicate Sendable(op: Op) {
    && |op.key| <= CONFIG_KEY_LENGTH
    && (op.Set? || op.Add? || op.Replace? || op.Cas? ==> ItemFits(op.item))
    && (op.Append? || op.Prepend? ==> |op.data| <= CONFIG_VALUE_LENGTH)
    && (op.Incr? || op.Decr? ==> op.amount < U64)
    && (op.Cas? ==> op.casUnique < U64)
  }

  // ----- layouts, each followed by the bytes `rest`

  function PutInt(n: nat, v: nat, rest: Bytes): Bytes {
    LittleEndian(n, v) + rest
  }

  /** A length of w bytes and that many bytes. */
  function PutBlock(w: nat, data: Bytes, rest: Bytes): Bytes {
    PutInt(w, |data|, data + rest)
  }

  function PutItem(item: Item, rest: Bytes): Bytes {
    PutBlock(4, item.value, PutInt(4, item.expiration, PutInt(4, item.flags, rest)))
  }

  function PutCas(unique: nat, item: Item, rest: Bytes): Bytes {
    PutBlock(4, item.value, PutInt(8, unique, PutInt(4, item.expiration, PutInt(4, item.flags, rest))))
  }

  function PutArguments(op: Op, rest: Bytes): Bytes {
    match op
    case Set(_, item) => PutItem(item, rest)
    case Add(_, item) => PutItem(item, rest)
    case Replace(_, item) => PutItem(item, rest)
    case Append(_, data) => PutBlock(4, data, rest)
    case Prepend(_, data) => PutBlock(4, data, rest)
    case Cas(_, unique, item) => PutCas(unique, item, rest)
    case Incr(_, n) => PutInt(8, n, rest)
    case Decr(_, n) => PutInt(8, n, rest)
    case Del(_) => rest
    case Get(_) => rest
  }

  /** The request's bytes. For cas this is the layout the server reads under the CAS command. */
  function Encode(op: Op, rest: Bytes): Bytes {
    PutBlock(1, op.key, PutArguments(op, rest))
  }

  // ----- reading; None is the exception

  function TakeInt(n: nat, b: Bytes): Option<(nat, Bytes)> {
    if |b| < n then None else Some((FromLittleEndian(b[..n]), b[n..]))
  }

  function TakeBytes(n: nat, b: Bytes): Option<(Bytes, Bytes)> {
    if |b| < n then None else Some((b[..n], b[n..]))
  }

  function TakeBlock(w: nat, b: Bytes): Option<(Bytes, Bytes)> {
    var (n, b) :- TakeInt(w, b);
    TakeBytes(n, b)
  }

  function TakeFields(b: Bytes): Option<((nat, nat), Bytes)> {
    var (expiration, b) :- TakeInt(4, b);
    var (flags, b) :- TakeInt(4, b);
    Some(((expiration, flags), b))
  }

  function TakeItem(b: Bytes): Option<(Item, Bytes)> {
    var (value, b) :- TakeBlock(4, b);
    var ((expiration, flags), b) :- TakeFields(b);
    Some((Item(value, expiration, flags), b))
  }

  function TakeCas(b: Bytes): Option<((nat, Item), Bytes)> {
    var (value, b) :- TakeBlock(4, b);
    var (unique, b) :- TakeInt(8, b);
    var ((expiration, flags), b) :- TakeFields(b);
    Some(((unique, Item(value, expiration, flags)), b))
  }

  predicate IsRequest(cmd: nat) {
    SET <= cmd <= GET
  }

  /** decodeRequest's field decoding: the operation and the bytes left over. */
  function Decode(cmd: nat, b: Bytes): Option<(Op, Bytes)> {
    if !IsRequest(cmd) then None
    else
      var (key, b) :- TakeBlock(1, b);
      if cmd == SET || cmd == ADD || cmd == REPLACE then
        var (item, b) :- TakeItem(b);
        Some((if cmd == SET then Op.Set(key, item)
              else if cmd == ADD then Op.Add(key, item)
              else Op.Replace(key, item), b))
      else if cmd == APPEND || cmd == PREPEND then
        var (data, b) :- TakeBlock(4, b);
        Some((if cmd == APPEND then Op.Append(key, data) else Op.Prepend(key, data), b))
      else if cmd == CAS then
        var ((unique, item), b) :- TakeCas(b);
        Some((Op.Cas(key, unique, item), b))
      else if cmd == INCR || cmd == DECR then
        var (n, b) :- TakeInt(8, b);
        Some((if cmd == INCR then Op.Incr(key, n) else Op.Decr(key, n), b))
      else
        Some((if cmd == DEL then Op.Del(key) else Op.Get(key), b))
  }

  lemma TakeIntOfPut(n: nat, v: nat, rest: Bytes)
    requires v < Pow256(n)
    ensures TakeInt(n, PutInt(n, v, rest)) == Some((v, rest))
  {
    LittleEndianRoundTrip(n, v);
    assert PutInt(n, v, rest)[..n] == LittleEndian(n, v);
  }

  lemma TakeBlockOfPut(w: nat, data: Bytes, rest: Bytes)
    requires |data| < Pow256(w)
    ensures TakeBlock(w, PutBlock(w, data, rest)) == Some((data, rest))
  {
    TakeIntOfPut(w, |data|, data + rest);
  }

  lemma TakeItemOfPut(item: Item, rest: Bytes)
    requires ItemFits(item)
    ensures TakeItem(PutItem(item, rest)) == Some((item, rest))
  {
    hide TakeInt, TakeBlock, PutInt, PutBlock;
    WordSizes();
    TakeBlockOfPut(4, item.value, PutInt(4, item.expiration, PutInt(4, item.flags, rest)));
    TakeIntOfPut(4, item.expiration, PutInt(4, item.flags, rest));
    TakeIntOfPut(4, item.flags, rest);
  }

  lemma TakeCasOfPut(unique: nat, item: Item, rest: Bytes)
    requires ItemFits(item) && unique < U64
    ensures TakeCas(PutCas(unique, item, rest)) == Some(((unique, item), rest))
  {
    hide TakeInt, TakeBlock, PutInt, PutBlock;
    WordSizes();
    TakeBlockOfPut(4, item.value, PutInt(8, unique, PutInt(4, item.expiration, PutInt(4, item.flags, rest))));
    TakeIntOfPut(8, unique, PutInt(4, item.expiration, PutInt(4, item.flags, rest)));
    TakeIntOfPut(4, item.expiration, PutInt(4, item.flags, rest));
    TakeIntOfPut(4, item.flags, rest);
  }

  /** The server recovers every field of what the client sends and consumes exactly its bytes. */
  lemma RequestRoundTrip(op: Op, rest: Bytes)
    requires Sendable(op)
    ensures Decode(CommandOf(op), Encode(op, rest)) == Some((op, rest))
  {
    hide TakeInt, TakeBlock, PutInt, PutBlock, PutItem, PutCas, TakeItem, TakeCas;
    WordSizes();
    TakeBlockOfPut(1, op.key, PutArguments(op, rest));
    match op {
      case Set(_, item) => TakeItemOfPut(item, rest);
      case Add(_, item) => TakeItemOfPut(item, rest);
      case Replace(_, item) => TakeItemOfPut(item, rest);
      case Append(_, data) => TakeBlockOfPut(4, data, rest);
      case Prepend(_, data) => TakeBlockOfPut(4, data, rest);
      case Cas(_, unique, item) => TakeCasOfPut(unique, item, rest);
      case Incr(_, n) => TakeIntOfPut(8, n, rest);
      case Decr(_, n) => TakeIntOfPut(8, n, rest);
      case Del(_) =>
      case Get(_) =>
    }
  }

  // ----- truncation

  lemma TakeIntExtends(n: nat, b: Bytes, more: Bytes)
    requires TakeInt(n, b).Some?
    ensures TakeInt(n, b + more) == Some((TakeInt(n, b).value.0, TakeInt(n, b).value.1 + more))
  {
    assert (b + more)[..n] == b[..n];
    assert (b + more)[n..] == b[n..] + more;
  }

  lemma TakeBlockExtends(w: nat, b: Bytes, more: Bytes)
    requires TakeBlock(w, b).Some?
    ensures TakeBlock(w, b + more) == Some((TakeBlock(w, b).value.0, TakeBlock(w, b).value.1 + more))
  {
    TakeIntExtends(w, b, more);
    var (n, b') := TakeInt(w, b).value;
    assert (b' + more)[..n] == b'[..n];
    assert (b' + more)[n..] == b'[n..] + more;
  }

  lemma TakeFieldsExtends(b: Bytes, more: Bytes)
    requires TakeFields(b).Some?
    ensures TakeFields(b + more) == Some((TakeFields(b).value.0, TakeFields(b).value.1 + more))
  {
    hide TakeInt;
    TakeIntExtends(4, b, more);
    TakeIntExtends(4, TakeInt(4, b).value.1, more);
  }

  lemma TakeItemExtends(b: Bytes, more: Bytes)
    requires TakeItem(b).Some?
    ensures TakeItem(b + more) == Some((TakeItem(b).value.0, TakeItem(b).value.1 + more))
  {
    hide TakeBlock, TakeFields;
    TakeBlockExtends(4, b, more);
    TakeFieldsExtends(TakeBlock(4, b).value.1, more);
  }

  lemma TakeCasExtends(b: Bytes, more: Bytes)
    requires TakeCas(b).Some?
    ensures TakeCas(b + more) == Some((TakeCas(b).value.0, TakeCas(b).value.1 + more))
  {
    hide TakeBlock, TakeInt, TakeFields;
    TakeBlockExtends(4, b, more);
    var b1 := TakeBlock(4, b).value.1;
    TakeIntExtends(8, b1, more);
    TakeFieldsExtends(TakeInt(8, b1).value.1, more);
  }

  /** Decoding looks only at the bytes it consumes. */
  lemma DecodeExtends(cmd: nat, b: Bytes, more: Bytes)
    requires Decode(cmd, b).Some?
    ensures Decode(cmd, b + more) == Some((Decode(cmd, b).value.0, Decode(cmd, b).value.1 + more))
  {
    hide TakeBlock, TakeInt, TakeItem, TakeCas;
    TakeBlockExtends(1, b, more);
    var b1 := TakeBlock(1, b).value.1;
    if cmd == SET || cmd == ADD || cmd == REPLACE {
      TakeItemExtends(b1, more);
    } else if cmd == APPEND || cmd == PREPEND {
      TakeBlockExtends(4, b1, more);
    } else if cmd == CAS {
      TakeCasExtends(b1, more);
    } else if cmd == INCR || cmd == DECR {
      TakeIntExtends(8, b1, more);
    }
  }

  /** Every proper prefix of a request makes the decoder raise its exception. */
  lemma TruncatedRequestIsRejected(op: Op, k: nat)
    requires Sendable(op) && k < |Encode(op, [])|
    ensures Decode(CommandOf(op), Encode(op, [])[..k]) == None
  {
    hide Decode, Encode;
    var all := Encode(op, []);
    if Decode(CommandOf(op), all[..k]).Some? {
      assert all[..k] + all[k..] == all;
      DecodeExtends(CommandOf(op), all[..k], all[k..]);
      RequestRoundTrip(op, []);
    }
  }

  // ----- the client's cas

  lemma LowByte(lo: nat, q: nat)
    ensures (lo + 256 * q) % 256 == lo % 256 && (lo + 256 * q) / 256 == lo / 256 + q
  {
  }

  /** The low bytes of a sum of a small number and a multiple of a power of 256. */
  lemma {:induction false} LittleEndianSum(n: nat, m: nat, lo: nat, hi: nat, v: nat)
    requires lo < Pow256(n) && v == lo + Pow256(n) * hi
    ensures LittleEndian(n + m, v) == LittleEndian(n, lo) + LittleEndian(m, hi)
    decreases n
  {
    if n > 0 {
      var q := Pow256(n - 1) * hi;
      MulAssoc(256, Pow256(n - 1), hi);
      LowByte(lo, q);
      LittleEndianSum(n - 1, m, lo / 256, hi, v / 256);
    }
  }

  lemma TwoHalves(v: nat, rest: Bytes)
    ensures PutInt(8, v, rest) == PutInt(4, v % U32, PutInt(4, v / U32, rest))
  {
    hide Pow256, LittleEndian;
    WordSizes();
    LittleEndianSum(4, 4, v % U32, v / U32, v);
    Concat3(LittleEndian(4, v % U32), LittleEndian(4, v / U32), rest);
  }

  /** Client::cas sends its fields under the SET command. The server takes the low half of the CAS value
      for the expiration and the high half for the flags, stores unconditionally, and ignores the rest. */
  lemma ClientCasIsDecodedAsSet(key: Bytes, unique: nat, item: Item)
    requires Sendable(Op.Cas(key, unique, item))
    ensures Decode(SET, Encode(Op.Cas(key, unique, item), [])) ==
      Some((Op.Set(key, Item(item.value, unique % U32, unique / U32)),
            PutInt(4, item.expiration, PutInt(4, item.flags, []))))
  {
    hide TakeInt, TakeBlock, PutBlock, PutInt, Pow256;
    WordSizes();
    var rest := PutInt(4, item.expiration, PutInt(4, item.flags, []));
    TakeBlockOfPut(1, key, PutCas(unique, item, []));
    TakeBlockOfPut(4, item.value, PutInt(8, unique, rest));
    TwoHalves(unique, rest);
    TakeIntOfPut(4, unique % U32, PutInt(4, unique / U32, rest));
    TakeIntOfPut(4, unique / U32, rest);
  }

  // ----- GET responses

  datatype Found = Found(key: Bytes, value: Bytes, flags: nat, cas: nat)

  predicate FoundFits(f: Found) {
    |f.key| <= CONFIG_KEY_LENGTH && |f.value| < U32 && f.flags < U32 && f.cas < U64
  }

  function EncodeFound(f: Found, rest: Bytes): Bytes {
    PutBlock(1, f.key, PutInt(4, f.flags, PutInt(8, f.cas, PutBlock(4, f.value, rest))))
  }

  function DecodeFound(b: Bytes): Option<(Found, Bytes)> {
    var (key, b) :- TakeBlock(1, b);
    var (flags, b) :- TakeInt(4, b);
    var (cas, b) :- TakeInt(8, b);
    var (value, b) :- TakeBlock(4, b);
    Some((Found(key, value, flags, cas), b))
  }

  lemma FoundRoundTrip(f: Found, rest: Bytes)
    requires FoundFits(f)
    ensures DecodeFound(EncodeFound(f, rest)) == Some((f, rest))
  {
    hide TakeInt, TakeBlock, PutInt, PutBlock;
    WordSizes();
    TakeBlockOfPut(1, f.key, PutInt(4, f.flags, PutInt(8, f.cas, PutBlock(4, f.value, rest))));
    TakeIntOfPut(4, f.flags, PutInt(8, f.cas, PutBlock(4, f.value, rest)));
    TakeIntOfPut(8, f.cas, PutBlock(4, f.value, rest));
    TakeBlockOfPut(4, f.value, rest);
  }

  lemma FoundExtends(b: Bytes, more: Bytes)
    requires DecodeFound(b).Some?
    ensures DecodeFound(b + more) == Some((DecodeFound(b).value.0, DecodeFound(b).value.1 + more))
  {
    hide TakeInt, TakeBlock;
    TakeBlockExtends(1, b, more);
    var b1 := TakeBlock(1, b).value.1;
    TakeIntExtends(4, b1, more);
    var b2 := TakeInt(4, b1).value.1;
    TakeIntExtends(8, b2, more);
    TakeBlockExtends(4, TakeInt(8, b2).value.1, more);
  }

  /** Every proper prefix of a response makes the client's reads raise the exception. */
  lemma TruncatedFoundIsRejected(f: Found, k: nat)
    requires FoundFits(f) && k < |EncodeFound(f, [])|
    ensures DecodeFound(EncodeFound(f, [])[..k]) == None
  {
    hide DecodeFound, EncodeFound;
    var all := EncodeFound(f, []);
    if DecodeFound(all[..k]).Some? {
      assert all[..k] + all[k..] == all;
      FoundExtends(all[..k], all[k..]);
      FoundRoundTrip(f, []);
    }
  }

  // ----- the code

  lemma PutBlockSplits(w: nat, data: Bytes, rest: Bytes)
    ensures PutBlock(w, data, rest) == PutBlock(w, data, []) + rest
  {
    assert LittleEndian(w, |data|) + (data + rest) == LittleEndian(w, |data|) + (data + []) + rest;
  }

  lemma PutIntSplits(n: nat, v: nat, rest: Bytes)
    ensures PutInt(n, v, rest) == PutInt(n, v, []) + rest
    ensures PutInt(n, v, []) == LittleEndian(n, v)
  {
  }

  lemma Concat3(a: Bytes, b: Bytes, c: Bytes)
    ensures a + b + c == a + (b + c)
  {
  }

  method WriteBlock(w: PacketWriter, n: nat, data: Bytes)
    requires w.Valid() && n <= 8
    modifies w
    ensures w.Valid() && Body(w.list) == old(Body(w.list)) + PutBlock(n, data, [])
  {
    hide Body, LittleEndian;
    w.WriteInt(n, |data|);
    w.WriteBytes(data);
    assert data + [] == data;
    Concat3(old(Body(w.list)), LittleEndian(n, |data|), data);
  }

  /** The fixed-size fields at the end of set, add, replace and cas. */
  method WriteFields(w: PacketWriter, item: Item)
    requires w.Valid()
    modifies w
    ensures w.Valid() && Body(w.list) == old(Body(w.list)) + PutInt(4, item.expiration, PutInt(4, item.flags, []))
  {
    hide Body, LittleEndian;
    w.WriteInt(4, item.expiration);
    w.WriteInt(4, item.flags);
    PutIntSplits(4, item.flags, []);
    Concat3(old(Body(w.list)), LittleEndian(4, item.expiration), LittleEndian(4, item.flags));
  }

  method WriteArguments(w: PacketWriter, op: Op)
    requires w.Valid()
    modifies w
    ensures w.Valid() && Body(w.list) == old(Body(w.list)) + PutArguments(op, [])
  {
    hide Body, LittleEndian, PutInt, PutBlock;
    ghost var sofar := Body(w.list);
    match op {
      case Get(_) => assert sofar == sofar + [];
      case Del(_) => assert sofar == sofar + [];
      case Append(_, data) => WriteBlock(w, 4, data);
      case Prepend(_, data) => WriteBlock(w, 4, data);
      case Incr(_, n) => PutIntSplits(8, n, []); w.WriteInt(8, n);
      case Decr(_, n) => PutIntSplits(8, n, []); w.WriteInt(8, n);
      case Cas(_, unique, item) =>
        var fields := PutInt(4, item.expiration, PutInt(4, item.flags, []));
        PutBlockSplits(4, item.value, PutInt(8, unique, fields));
        PutIntSplits(8, unique, fields);
        WriteBlock(w, 4, item.value);
        w.WriteInt(8, unique);
        WriteFields(w, item);
        Concat3(sofar, PutBlock(4, item.value, []), LittleEndian(8, unique));
        Concat3(sofar, PutBlock(4, item.value, []) + LittleEndian(8, unique), fields);
        Concat3(PutBlock(4, item.value, []), LittleEndian(8, unique), fields);
      case _ =>
        var item := op.item;
        var fields := PutInt(4, item.expiration, PutInt(4, item.flags, []));
        PutBlockSplits(4, item.value, fields);
        WriteBlock(w, 4, item.value);
        WriteFields(w, item);
        Concat3(sofar, PutBlock(4, item.value, []), fields);
    }
  }

  predicate TooLong(op: Op) {
    || |op.key| > CONFIG_KEY_LENGTH
    || ((op.Set? || op.Add? || op.Replace? || op.Cas?) && |op.item.value| > CONFIG_VALUE_LENGTH)
    || ((op.Append? || op.Prepend?) && |op.data| > CONFIG_VALUE_LENGTH)
  }

  /** What a client does not refuse fits the server's request buffer. */
  lemma EncodingLength(op: Op)
    requires !TooLong(op)
    ensures |Encode(op, [])| <= CONFIG_VALUE_LENGTH + 276 <= CONFIG_MAX_REQUEST_SIZE
  {
  }

  /** The request encoders of Client: reject what is too long, otherwise write field by field. */
  method WriteRequest(w: PacketWriter, op: Op) returns (ok: bool)
    requires w.Valid()
    modifies w
    ensures w.Valid() && (ok <==> !TooLong(op))
    ensures Body(w.list) == old(Body(w.list)) + if ok then Encode(op, []) else []
  {
    hide Body, LittleEndian, PutInt, PutBlock, PutArguments;
    ghost var sofar := Body(w.list);
    if TooLong(op) {
      assert sofar + [] == sofar;
      return false;
    }
    PutBlockSplits(1, op.key, PutArguments(op, []));
    WriteBlock(w, 1, op.key);
    WriteArguments(w, op);
    Concat3(sofar, PutBlock(1, op.key, []), PutArguments(op, []));
    ok := true;
  }

  /** The command a client sends for an operation: cas goes out as a set. */
  function CommandSent(op: Op): nat {
    if op.Cas? then SET else CommandOf(op)
  }

  /** What the server takes the client's request for: cas becomes a set that expires at the low half of the CAS
      value and has the high half for flags; anything else is what it is. */
  function AsServed(op: Op): Op {
    if op.Cas? then Op.Set(op.key, Item(op.item.value, op.casUnique % U32, op.casUnique / U32)) else op
  }

  /** The packets of one request, as the server will read it. */
  ghost predicate SentFor(op: Op, ps: seq<Packet>) {
    && ps != [] && IsMessage(ps) && |ps| <= 716 && ps[0].h.seqNo < U16 && |Body(ps)| <= CONFIG_MAX_REQUEST_SIZE
    && Decode(ps[0].h.cmd, Body(ps)).Some? && Decode(ps[0].h.cmd, Body(ps)).value.0 == AsServed(op)
    && (!op.Cas? ==> Decode(ps[0].h.cmd, Body(ps)).value.1 == [])
  }

  lemma SentIsDecoded(op: Op)
    requires Sendable(op)
    ensures !TooLong(op)
    ensures var r := Decode(CommandSent(op), Encode(op, []));
      r.Some? && r.value.0 == AsServed(op) && (!op.Cas? ==> r.value.1 == [])
  {
    hide Decode, Encode;
    if op.Cas? {
      ClientCasIsDecodedAsSet(op.key, op.casUnique, op.item);
    } else {
      RequestRoundTrip(op, []);
    }
  }

  /** What a client can send is what is not too long and consists of machine words. */
  lemma SendableIff(op: Op)
    ensures Sendable(op) <==>
      && |op.key| < 256
      && (op.Set? || op.Add? || op.Replace? || op.Cas? ==>
            |op.item.value| < 0x10_0000 && op.item.expiration < U32 && op.item.flags < U32)
      && (op.Append? || op.Prepend? ==> |op.data| < 0x10_0000)
      && (op.Incr? || op.Decr? ==> op.amount < U64)
      && (op.Cas? ==> op.casUnique < U64)
  {
  }

  /** Requests byte by byte. */
  lemma RequestFormat()
    ensures Encode(Op.Set([97], Item([98], 3, 4)), []) == [1, 97, 1, 0, 0, 0, 98, 3, 0, 0, 0, 4, 0, 0, 0]
    ensures Encode(Op.Append([97], [98]), []) == [1, 97, 1, 0, 0, 0, 98]
    ensures Encode(Op.Incr([97], 5), []) == [1, 97, 5, 0, 0, 0, 0, 0, 0, 0]
    ensures Encode(Op.Get([97]), []) == [1, 97]
  {
    hide LittleEndian;
    SmallWord(1);
    SmallWord(3);
    SmallWord(4);
    SmallWord(5);
  }

  /** And a response. */
  lemma ResponseFormat()
    ensures EncodeFound(Found([97], [98], 3, 4), []) ==
            [1, 97, 3, 0, 0, 0, 4, 0, 0, 0, 0, 0, 0, 0, 1, 0, 0, 0, 98]
  {
    hide LittleEndian;
    SmallWord(1);
    SmallWord(3);
    SmallWord(4);
  }

  lemma SmallWord(v: nat)
    requires v < 256
    ensures LittleEndian(1, v) == [v as Byte] && LittleEndian(4, v) == [v as Byte, 0, 0, 0]
    ensures LittleEndian(8, v) == [v as Byte, 0, 0, 0, 0, 0, 0, 0]
  {
    assert LittleEndian(1, 0) == [0] && LittleEndian(2, 0) == [0, 0] && LittleEndian(3, 0) == [0, 0, 0];
    assert LittleEndian(5, 0) == [0, 0, 0, 0, 0] && LittleEndian(7, 0) == [0, 0, 0, 0, 0, 0, 0];
  }

  /** The packet and its header fit the packet's buffer. */
  predicate InBuffer(p: Packet) {
    HEADER + |p.payload| <= CONFIG_PACKET_SIZE
  }

  lemma PacketCount(n: nat, cb: nat)
    requires n > 0 && 1465 * (n - 1) <= cb <= CONFIG_VALUE_LENGTH + 276
    ensures n <= 716
  {
  }

  /** A request of Client up to the answer: a writer of its own is filled and sent. The writer takes the whole
      size of a packet for payload. When the key or the value is refused, the writer is destroyed with its first
      packet unsent, on which its assertion aborts the client. */
  method SendRequest(op: Op, rid: nat, isAsync: bool, seed: nat) returns (sent: Option<seq<Packet>>, aborted: bool)
    requires seed < U16
    ensures aborted <==> TooLong(op)
    ensures sent.None? <==> TooLong(op)
    ensures Sendable(op) ==> sent.Some? && SentFor(op, sent.value)
    ensures sent.Some? ==>
      var ps := sent.value;
      && ps != [] && Body(ps) == Encode(op, []) && ps[0].h.cmd == CommandSent(op) && ps[0].h.isAsync == isAsync
      && (forall i | 0 <= i < |ps| :: ps[i].h.rid == rid)
      && |ps| <= 716 && IsMessage(ps)
      && ((forall i | 0 <= i < |ps| :: InBuffer(ps[i])) <==> |Encode(op, [])| <= CONFIG_PACKET_SIZE - HEADER)
  {
    hide Body, Encode, Decode, IsMessage, TooLong, Sendable, AsServed;
    if Sendable(op) {
      SentIsDecoded(op);
    }
    var writer := new PacketWriter(CommandSent(op), rid, isAsync, seed, CONFIG_PACKET_SIZE);
    var ok := WriteRequest(writer, op);
    sent := None;
    if ok {
      var packets := writer.Send();
      assert Body(packets) == [] + Encode(op, []);
      EncodingLength(op);
      PacketCount(|packets|, |Encode(op, [])|);
      sent := Some(packets);
      assert packets[0].h.seqNo == seed && Body(packets) == Encode(op, []);
      assert Sendable(op) ==> SentFor(op, packets);
    }
    var clean := writer.Destroy();
    aborted := !clean;
  }

  method ReadBlock(bs: ByteStream, w: nat) returns (r: Option<Bytes>)
    requires bs.Valid()
    modifies bs
    ensures bs.Valid()
    ensures r.None? <==> TakeBlock(w, old(bs.Rest())).None?
    ensures r.Some? ==> TakeBlock(w, old(bs.Rest())) == Some((r.value, bs.Rest()))
  {
    ghost var b := bs.Rest();
    var n := bs.ReadInt(w);
    if n.None? {
      return None;
    }
    ghost var b1 := bs.Rest();
    assert b[w..] == b1;
    var data := bs.Read(n.value);
    if data.None? {
      return None;
    }
    assert b1[..n.value] == data.value && b1[n.value..] == bs.Rest();
    r := Some(data.value);
  }

  method ReadWord(bs: ByteStream, n: nat) returns (r: Option<nat>)
    requires bs.Valid()
    modifies bs
    ensures bs.Valid()
    ensures r.None? <==> TakeInt(n, old(bs.Rest())).None?
    ensures r.Some? ==> TakeInt(n, old(bs.Rest())) == Some((r.value, bs.Rest()))
  {
    ghost var b := bs.Rest();
    r := bs.ReadInt(n);
    if r.Some? {
      assert b[n..] == bs.Rest();
    }
  }

  method ReadFields(bs: ByteStream) returns (r: Option<(nat, nat)>)
    requires bs.Valid()
    modifies bs
    ensures bs.Valid()
    ensures r.None? <==> TakeFields(old(bs.Rest())).None?
    ensures r.Some? ==> TakeFields(old(bs.Rest())) == Some((r.value, bs.Rest()))
  {
    hide TakeInt;
    var expiration := ReadWord(bs, 4);
    if expiration.None? {
      return None;
    }
    var flags := ReadWord(bs, 4);
    if flags.None? {
      return None;
    }
    r := Some((expiration.value, flags.value));
  }

  /** The switch of decodeRequest up to the call of the cache. */
  method ReadRequest(cmd: nat, bs: ByteStream) returns (r: Option<Op>)
    requires bs.Valid()
    modifies bs
    ensures bs.Valid()
    ensures r.None? <==> Decode(cmd, old(bs.Rest())).None?
    ensures r.Some? ==> Decode(cmd, old(bs.Rest())) == Some((r.value, bs.Rest()))
  {
    hide TakeInt, TakeBlock, TakeFields;
    if !IsRequest(cmd) {
      return None;
    }
    var key := ReadBlock(bs, 1);
    if key.None? {
      return None;
    }
    if cmd == DEL {
      return Some(Op.Del(key.value));
    } else if cmd == GET {
      return Some(Op.Get(key.value));
    } else if cmd == INCR || cmd == DECR {
      var n := ReadWord(bs, 8);
      if n.None? {
        return None;
      }
      return Some(if cmd == INCR then Op.Incr(key.value, n.value) else Op.Decr(key.value, n.value));
    }
    var value := ReadBlock(bs, 4);
    if value.None? {
      return None;
    }
    if cmd == APPEND || cmd == PREPEND {
      return Some(if cmd == APPEND then Op.Append(key.value, value.value) else Op.Prepend(key.value, value.value));
    }
    var unique := Some(0);
    if cmd == CAS {
      unique := ReadWord(bs, 8);
      if unique.None? {
        return None;
      }
    }
    var fields := ReadFields(bs);
    if fields.None? {
      return None;
    }
    var item := Item(value.value, fields.value.0, fields.value.1);
    r := Some(if cmd == SET then Op.Set(key.value, item) else if cmd == ADD then Op.Add(key.value, item)
              else if cmd == REPLACE then Op.Replace(key.value, item) else Op.Cas(key.value, unique.value, item));
  }

  /** The GET response the server writes. */
  method WriteFound(w: PacketWriter, f: Found)
    requires w.Valid()
    modifies w
    ensures w.Valid() && Body(w.list) == old(Body(w.list)) + EncodeFound(f, [])
  {
    hide Body, LittleEndian, PutInt, PutBlock;
    ghost var sofar := Body(w.list);
    ghost var tail := PutBlock(4, f.value, []);
    PutBlockSplits(1, f.key, PutInt(4, f.flags, PutInt(8, f.cas, tail)));
    PutIntSplits(4, f.flags, PutInt(8, f.cas, tail));
    PutIntSplits(8, f.cas, tail);
    WriteBlock(w, 1, f.key);
    w.WriteInt(4, f.flags);
    w.WriteInt(8, f.cas);
    WriteBlock(w, 4, f.value);
    Concat3(sofar, PutBlock(1, f.key, []), LittleEndian(4, f.flags));
    Concat3(sofar, PutBlock(1, f.key, []) + LittleEndian(4, f.flags), LittleEndian(8, f.cas));
    Concat3(sofar, PutBlock(1, f.key, []) + LittleEndian(4, f.flags) + LittleEndian(8, f.cas), tail);
    Concat3(PutBlock(1, f.key, []), LittleEndian(4, f.flags), LittleEndian(8, f.cas) + tail);
    Concat3(PutBlock(1, f.key, []) + LittleEndian(4, f.flags), LittleEndian(8, f.cas), tail);
  }

  /** The client's reading of a GET response. */
  method ReadFound(bs: ByteStream) returns (r: Option<Found>)
    requires bs.Valid()
    modifies bs
    ensures bs.Valid()
    ensures r.None? <==> DecodeFound(old(bs.Rest())).None?
    ensures r.Some? ==> DecodeFound(old(bs.Rest())) == Some((r.value, bs.Rest()))
  {
    hide TakeInt, TakeBlock;
    var key := ReadBlock(bs, 1);
    if key.None? {
      return None;
    }
    var flags := ReadWord(bs, 4);
    if flags.None? {
      return None;
    }
    var cas := ReadWord(bs, 8);
    if cas.None? {
      return None;
    }
    var value := ReadBlock(bs, 4);
    if value.None? {
      return None;
    }
    r := Some(Found(key.value, value.value, flags.value, cas.value));
  }
}
