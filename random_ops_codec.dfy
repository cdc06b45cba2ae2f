/**
 * The random_ops workload's operation log: a one-byte-tag text codec for the
 * operations the workload performs, the newline-framed reader the checker uses
 * on the workload's stdout, and the value codec that ties each stored value to
 * the set counter it was written with.
 */
module RandomOpsCodec {
  import opened Prelude

  datatype BatchOp = Set | Del(key: U8)

  datatype Op =
    | Set
    | Del(key: U8)
    | Id
    | Batched(ops: seq<BatchOp>)
    | Restart
    | Flush
    | DelayedCrash
    | CrashAndRecoveryVirtualOp(batchCounter: U32)
    | IdResultVirtualOp(id: U64)

  /** `OpDecodeError`: the decoder gives no detail about what went wrong. */
  datatype DecodeError = DecodeError

  const TAG_SET: Byte := 's' as int
  const TAG_DEL: Byte := 'd' as int
  const TAG_ID: Byte := 'i' as int
  const TAG_BATCH: Byte := 'b' as int
  const TAG_RESTART: Byte := '-' as int
  const TAG_FLUSH: Byte := 'f' as int
  const TAG_DELAYED_CRASH: Byte := '_' as int
  const TAG_CRASH: Byte := 'c' as int
  const TAG_ID_RESULT: Byte := 'I' as int
  const NEWLINE: Byte := '\n' as int

  const U8_MAX: nat := 0xff
  const U32_MAX: nat := 0xffff_ffff
  const U64_MAX: nat := 0xffff_ffff_ffff_ffff

  // ---------------------------------------------------------------------------
  // Encoding
  // ---------------------------------------------------------------------------

  function BatchOpEncoding(op: BatchOp): seq<Byte>
  {
    match op
    case Set => [TAG_SET]
    case Del(key) => [TAG_DEL] + DecimalBytes(key)
  }

  function BatchEncoding(ops: seq<BatchOp>): seq<Byte>
  {
    if ops == [] then [] else BatchOpEncoding(ops[0]) + BatchEncoding(ops[1..])
  }

  /** The bytes `Op::encode` produces. */
  function Encoding(op: Op): seq<Byte>
  {
    match op
    case Set => [TAG_SET]
    case Del(key) => [TAG_DEL] + DecimalBytes(key)
    case Id => [TAG_ID]
    case Batched(ops) => [TAG_BATCH] + BatchEncoding(ops)
    case Restart => [TAG_RESTART]
    case Flush => [TAG_FLUSH]
    case DelayedCrash => [TAG_DELAYED_CRASH]
    case CrashAndRecoveryVirtualOp(b) => [TAG_CRASH] + DecimalBytes(b)
    case IdResultVirtualOp(id) => [TAG_ID_RESULT] + DecimalBytes(id)
  }

  lemma {:induction false} BatchEncodingAppend(a: seq<BatchOp>, b: seq<BatchOp>)
    ensures BatchEncoding(a + b) == BatchEncoding(a) + BatchEncoding(b)
  {
    if a != [] {
      assert (a + b)[0] == a[0];
      assert (a + b)[1..] == a[1..] + b;
      BatchEncodingAppend(a[1..], b);
      calc {
        BatchEncoding(a + b);
        BatchOpEncoding(a[0]) + BatchEncoding(a[1..] + b);
        BatchOpEncoding(a[0]) + (BatchEncoding(a[1..]) + BatchEncoding(b));
        (BatchOpEncoding(a[0]) + BatchEncoding(a[1..])) + BatchEncoding(b);
        BatchEncoding(a) + BatchEncoding(b);
      }
    } else {
      assert a + b == b;
    }
  }

  lemma BatchEncodingSnoc(ops: seq<BatchOp>, i: nat)
    requires i < |ops|
    ensures BatchEncoding(ops[..i + 1]) == BatchEncoding(ops[..i]) + BatchOpEncoding(ops[i])
  {
    BatchEncodingAppend(ops[..i], [ops[i]]);
    assert ops[..i + 1] == ops[..i] + [ops[i]];
    assert [ops[i]][1..] == [];
  }

  /** The loop of `Op::encode` for a batch: each operation is appended to the output in turn. */
  method EncodeBatch(ops: seq<BatchOp>) returns (output: seq<Byte>)
    ensures output == BatchEncoding(ops)
  {
    output := [];
    var i := 0;
    while i < |ops|
      invariant 0 <= i <= |ops|
      invariant output == BatchEncoding(ops[..i])
    {
      var piece: seq<Byte>;
      match ops[i] {
        case Set => piece := [TAG_SET];
        case Del(key) => piece := [TAG_DEL] + DecimalBytes(key);
      }
      assert piece == BatchOpEncoding(ops[i]);
      BatchEncodingSnoc(ops, i);
      output := output + piece;
      i := i + 1;
    }
    assert ops[..|ops|] == ops;
  }

  /** `Op::encode`. */
  method Encode(op: Op) returns (output: seq<Byte>)
    ensures output == Encoding(op)
  {
    match op {
      case Set => output := [TAG_SET];
      case Del(key) => output := [TAG_DEL] + DecimalBytes(key);
      case Id => output := [TAG_ID];
      case Batched(ops) =>
        var body := EncodeBatch(ops);
        output := [TAG_BATCH] + body;
      case Restart => output := [TAG_RESTART];
      case Flush => output := [TAG_FLUSH];
      case DelayedCrash => output := [TAG_DELAYED_CRASH];
      case CrashAndRecoveryVirtualOp(b) => output := [TAG_CRASH] + DecimalBytes(b);
      case IdResultVirtualOp(id) => output := [TAG_ID_RESULT] + DecimalBytes(id);
    }
  }

  // ---------------------------------------------------------------------------
  // Decoding
  // ---------------------------------------------------------------------------

  /**
   * What `parse_u8`, `parse_u32` and `parse_u64` compute, for a type whose
   * largest value is `max`: the decimal value of a non-empty run of digits,
   * or an error when the run is empty, holds a non-digit, or overflows.
   */
  function ParseNumber(data: seq<Byte>, max: nat): (r: Result<nat, DecodeError>)
    ensures r.Ok? ==> r.value <= max
  {
    if data == [] || !AllDigitBytes(data) then Err(DecodeError)
    else if DigitBytesValue(data) <= max then Ok(DigitBytesValue(data))
    else Err(DecodeError)
  }

  /** Appending digits never makes a decimal value smaller. */
  lemma {:induction false} DigitBytesValuePrefix(s: seq<Byte>, j: nat)
    requires j <= |s| && AllDigitBytes(s)
    ensures DigitBytesValue(s[..j]) <= DigitBytesValue(s)
    decreases |s| - j
  {
    if j < |s| {
      DigitBytesValuePrefix(s, j + 1);
      assert s[..j + 1][..j] == s[..j];
    } else {
      assert s[..j] == s;
    }
  }

  /**
   * The body shared by `parse_u8`, `parse_u32` and `parse_u64`: a digit loop
   * whose multiply and add fail as soon as the value would exceed `max`.
   */
  method ParseDigits(data: seq<Byte>, max: nat) returns (r: Result<nat, DecodeError>)
    ensures r == ParseNumber(data, max)
  {
    if |data| == 0 {
      return Err(DecodeError);
    }
    var value := 0;
    var i := 0;
    while i < |data|
      invariant 0 <= i <= |data|
      invariant AllDigitBytes(data[..i]) && value == DigitBytesValue(data[..i]) && value <= max
    {
      var b := data[i];
      if !IsDigitByte(b) {
        return Err(DecodeError);
      }
      assert data[..i + 1][..i] == data[..i];
      if value * 10 > max || value * 10 + (b - 0x30) > max {
        if AllDigitBytes(data) {
          DigitBytesValuePrefix(data, i + 1);
        }
        return Err(DecodeError);
      }
      value := value * 10 + (b - 0x30);
      i := i + 1;
    }
    assert data[..i] == data;
    r := Ok(value);
  }

  /** The end of the run of digits in `data` that starts at `from`. */
  function DigitRunEnd(data: seq<Byte>, from: nat): (e: nat)
    requires from <= |data|
    ensures from <= e <= |data|
    ensures AllDigitBytes(data[from..e])
    ensures e == |data| || !IsDigitByte(data[e])
    decreases |data| - from
  {
    if from == |data| || !IsDigitByte(data[from]) then from
    else
      var e := DigitRunEnd(data, from + 1);
      assert forall i | from <= i < e :: IsDigitByte(data[i]) by {
        forall i | from <= i < e ensures IsDigitByte(data[i]) {
          if i > from { assert data[from + 1..e][i - from - 1] == data[i]; }
        }
      }
      e
  }

  function Prepend(ops: seq<BatchOp>, r: Result<seq<BatchOp>, DecodeError>): Result<seq<BatchOp>, DecodeError>
  {
    match r
    case Ok(rest) => Ok(ops + rest)
    case Err(_) => Err(DecodeError)
  }

  /** The batch loop of `Op::decode`: 's', or 'd' and the maximal run of digits after it, until the input ends. */
  function DecodeBatch(data: seq<Byte>): Result<seq<BatchOp>, DecodeError>
    decreases |data|
  {
    if data == [] then Ok([])
    else if data[0] == TAG_SET then Prepend([BatchOp.Set], DecodeBatch(data[1..]))
    else if data[0] == TAG_DEL then
      var numberEnd := DigitRunEnd(data, 1);
      match ParseNumber(data[1..numberEnd], U8_MAX)
      case Err(_) => Err(DecodeError)
      case Ok(key) => Prepend([BatchOp.Del(key)], DecodeBatch(data[numberEnd..]))
    else Err(DecodeError)
  }

  /**
   * What `Op::decode` returns. Tags without an argument ignore whatever
   * follows them; numeric arguments take the rest of the input.
   */
  function Decoding(data: seq<Byte>): Result<Op, DecodeError>
  {
    if data == [] then Err(DecodeError)
    else
      var tag, rest := data[0], data[1..];
      if tag == TAG_SET then Ok(Op.Set)
      else if tag == TAG_DEL then
        (match ParseNumber(rest, U8_MAX) case Ok(k) => Ok(Op.Del(k)) case Err(_) => Err(DecodeError))
      else if tag == TAG_ID then Ok(Id)
      else if tag == TAG_BATCH then
        (match DecodeBatch(rest) case Ok(ops) => Ok(Batched(ops)) case Err(_) => Err(DecodeError))
      else if tag == TAG_RESTART then Ok(Restart)
      else if tag == TAG_FLUSH then Ok(Flush)
      else if tag == TAG_DELAYED_CRASH then Ok(DelayedCrash)
      else if tag == TAG_CRASH then
        (match ParseNumber(rest, U32_MAX) case Ok(b) => Ok(CrashAndRecoveryVirtualOp(b)) case Err(_) => Err(DecodeError))
      else if tag == TAG_ID_RESULT then
        (match ParseNumber(rest, U64_MAX) case Ok(id) => Ok(IdResultVirtualOp(id)) case Err(_) => Err(DecodeError))
      else Err(DecodeError)
  }

  /** The scan for the end of a key's digits: `position` of the first non-digit. */
  method DigitRun(data: seq<Byte>, from: nat) returns (e: nat)
    requires from <= |data|
    ensures e == DigitRunEnd(data, from)
  {
    e := from;
    while e < |data| && IsDigitByte(data[e])
      invariant from <= e <= |data|
      invariant DigitRunEnd(data, e) == DigitRunEnd(data, from)
    {
      e := e + 1;
    }
  }

  /** One step of the batch loop, read at an absolute position of the input. */
  lemma DecodeBatchAt(data: seq<Byte>, pos: nat)
    requires pos < |data|
    ensures data[pos] == TAG_SET ==>
      DecodeBatch(data[pos..]) == Prepend([BatchOp.Set], DecodeBatch(data[pos + 1..]))
    ensures data[pos] == TAG_DEL ==>
      var e := DigitRunEnd(data, pos + 1);
      DecodeBatch(data[pos..]) ==
        match ParseNumber(data[pos + 1..e], U8_MAX)
        case Err(_) => Err(DecodeError)
        case Ok(key) => Prepend([BatchOp.Del(key)], DecodeBatch(data[e..]))
    ensures data[pos] != TAG_SET && data[pos] != TAG_DEL ==> DecodeBatch(data[pos..]).Err?
  {
    var rest := data[pos..];
    assert rest[0] == data[pos];
    if data[pos] == TAG_SET {
      assert rest[1..] == data[pos + 1..];
    } else if data[pos] == TAG_DEL {
      var e := DigitRunEnd(data, pos + 1);
      assert rest[1..e - pos] == data[pos + 1..e];
      if e < |data| { assert rest[e - pos] == data[e]; }
      DigitRunEndAt(rest, 1, e - pos);
      assert rest[e - pos..] == data[e..];
    }
  }

  /** The batch loop of `Op::decode`, advancing through `data` one operation at a time. */
  method DecodeBatchLoop(data: seq<Byte>) returns (r: Result<seq<BatchOp>, DecodeError>)
    ensures r == DecodeBatch(data)
  {
    var ops: seq<BatchOp> := [];
    var pos := 0;
    PrependEmpty(DecodeBatch(data));
    assert data[pos..] == data;
    while pos < |data|
      invariant 0 <= pos <= |data|
      invariant DecodeBatch(data) == Prepend(ops, DecodeBatch(data[pos..]))
    {
      DecodeBatchAt(data, pos);
      if data[pos] == TAG_SET {
        PrependAssoc(ops, [BatchOp.Set], DecodeBatch(data[pos + 1..]));
        ops := ops + [BatchOp.Set];
        pos := pos + 1;
      } else if data[pos] == TAG_DEL {
        var numberEnd := DigitRun(data, pos + 1);
        var key := ParseDigits(data[pos + 1..numberEnd], U8_MAX);
        if key.Err? {
          return Err(DecodeError);
        }
        PrependAssoc(ops, [BatchOp.Del(key.value)], DecodeBatch(data[numberEnd..]));
        ops := ops + [BatchOp.Del(key.value)];
        pos := numberEnd;
      } else {
        return Err(DecodeError);
      }
    }
    assert data[pos..] == [];
    assert ops + [] == ops;
    r := Ok(ops);
  }

  lemma PrependEmpty(r: Result<seq<BatchOp>, DecodeError>)
    ensures Prepend([], r) == r
  {
    match r
    case Ok(rest) => assert [] + rest == rest;
    case Err(e) => match e case DecodeError =>
  }

  /** `Op::decode`: dispatch on the tag, then the number parsers or the batch loop. */
  method Decode(data: seq<Byte>) returns (r: Result<Op, DecodeError>)
    ensures r == Decoding(data)
  {
    if |data| == 0 {
      return Err(DecodeError);
    }
    var tag := data[0];
    if tag == TAG_SET {
      r := Ok(Op.Set);
    } else if tag == TAG_DEL {
      var key := ParseDigits(data[1..], U8_MAX);
      r := if key.Ok? then Ok(Op.Del(key.value)) else Err(DecodeError);
    } else if tag == TAG_ID {
      r := Ok(Id);
    } else if tag == TAG_BATCH {
      var ops := DecodeBatchLoop(data[1..]);
      r := if ops.Ok? then Ok(Batched(ops.value)) else Err(DecodeError);
    } else if tag == TAG_RESTART {
      r := Ok(Restart);
    } else if tag == TAG_FLUSH {
      r := Ok(Flush);
    } else if tag == TAG_DELAYED_CRASH {
      r := Ok(DelayedCrash);
    } else if tag == TAG_CRASH {
      var b := ParseDigits(data[1..], U32_MAX);
      r := if b.Ok? then Ok(CrashAndRecoveryVirtualOp(b.value)) else Err(DecodeError);
    } else if tag == TAG_ID_RESULT {
      var id := ParseDigits(data[1..], U64_MAX);
      r := if id.Ok? then Ok(IdResultVirtualOp(id.value)) else Err(DecodeError);
    } else {
      r := Err(DecodeError);
    }
  }

  // ---------------------------------------------------------------------------
  // Round trip and error cases
  // ---------------------------------------------------------------------------

  /** Every number written in decimal parses back within its type's range. */
  lemma ParseDecimal(n: nat, max: nat)
    requires n <= max
    ensures ParseNumber(DecimalBytes(n), max) == Ok(n)
  {
  }

  lemma DigitRunEndAt(data: seq<Byte>, from: nat, to: nat)
    requires from <= to <= |data|
    requires AllDigitBytes(data[from..to])
    requires to == |data| || !IsDigitByte(data[to])
    ensures DigitRunEnd(data, from) == to
    decreases |data| - from
  {
    if from < to {
      assert IsDigitByte(data[from..to][0]);
      assert data[from + 1..to] == data[from..to][1..];
      DigitRunEndAt(data, from + 1, to);
    }
  }

  /** An encoded batch is empty or starts with an operation tag, never a digit. */
  lemma BatchEncodingStart(ops: seq<BatchOp>)
    ensures BatchEncoding(ops) == [] || BatchEncoding(ops)[0] == TAG_SET || BatchEncoding(ops)[0] == TAG_DEL
  {
  }

  lemma DecodeBatchEncoding(ops: seq<BatchOp>)
    ensures DecodeBatch(BatchEncoding(ops)) == Ok(ops)
  {
    BatchEncodingPrefix(ops, []);
    assert BatchEncoding(ops) + [] == BatchEncoding(ops);
    assert ops + [] == ops;
  }

  /** `decode(encode(op)) == op` for every operation. */
  lemma DecodeEncode(op: Op)
    ensures Decoding(Encoding(op)) == Ok(op)
  {
    var data := Encoding(op);
    match op
    case Del(key) =>
      assert data[1..] == DecimalBytes(key);
      ParseDecimal(key, U8_MAX);
    case Batched(ops) =>
      assert data[1..] == BatchEncoding(ops);
      DecodeBatchEncoding(ops);
    case CrashAndRecoveryVirtualOp(b) =>
      assert data[1..] == DecimalBytes(b);
      ParseDecimal(b, U32_MAX);
    case IdResultVirtualOp(id) =>
      assert data[1..] == DecimalBytes(id);
      ParseDecimal(id, U64_MAX);
    case _ =>
  }

  /** Empty input, and a first byte that is no tag, are rejected. */
  lemma DecodeRejectsBadTag(data: seq<Byte>)
    requires data == [] || data[0] !in {TAG_SET, TAG_DEL, TAG_ID, TAG_BATCH, TAG_RESTART, TAG_FLUSH,
                                       TAG_DELAYED_CRASH, TAG_CRASH, TAG_ID_RESULT}
    ensures Decoding(data).Err?
  {
  }

  /** A key written past the u8 range, such as "d256", is rejected rather than wrapped. */
  lemma DecodeRejectsWideKey(n: nat)
    requires n > U8_MAX
    ensures Decoding([TAG_DEL] + DecimalBytes(n)).Err?
    ensures Decoding([TAG_BATCH, TAG_DEL] + DecimalBytes(n)).Err?
  {
    var single := [TAG_DEL] + DecimalBytes(n);
    assert single[1..] == DecimalBytes(n);
    var batch := [TAG_BATCH, TAG_DEL] + DecimalBytes(n);
    var inner := batch[1..];
    assert inner == single;
    assert batch[0] == TAG_BATCH && inner[0] == TAG_DEL;
    DigitRunEndAt(inner, 1, |inner|);
    assert inner[1..|inner|] == DecimalBytes(n);
  }

  /** The same holds for the virtual operations' u32 and u64 arguments. */
  lemma DecodeRejectsWideCounters(n: nat)
    ensures n > U32_MAX ==> Decoding([TAG_CRASH] + DecimalBytes(n)).Err?
    ensures n > U64_MAX ==> Decoding([TAG_ID_RESULT] + DecimalBytes(n)).Err?
  {
    assert ([TAG_CRASH] + DecimalBytes(n))[1..] == DecimalBytes(n);
    assert ([TAG_ID_RESULT] + DecimalBytes(n))[1..] == DecimalBytes(n);
  }

  /** A numeric argument with a stray byte in it is rejected. */
  lemma DecodeRejectsNonDigit(tag: Byte, digits: seq<Byte>, x: Byte, more: seq<Byte>)
    requires tag in {TAG_DEL, TAG_CRASH, TAG_ID_RESULT}
    requires !IsDigitByte(x)
    ensures Decoding([tag] + digits + [x] + more).Err?
  {
    var data := [tag] + digits + [x] + more;
    assert data[1..][|digits|] == x;
  }

  /** A 'd' inside a batch needs at least one digit after it. */
  lemma DecodeRejectsEmptyBatchKey(ops: seq<BatchOp>, more: seq<Byte>)
    requires more == [] || !IsDigitByte(more[0])
    ensures DecodeBatch(BatchEncoding(ops) + [TAG_DEL] + more).Err?
  {
    var data := [TAG_DEL] + more;
    assert BatchEncoding(ops) + [TAG_DEL] + more == BatchEncoding(ops) + data;
    EmptyKeyRejected(more);
    BatchEncodingPrefix(ops, data);
  }

  lemma EmptyKeyRejected(more: seq<Byte>)
    requires more == [] || !IsDigitByte(more[0])
    ensures DecodeBatch([TAG_DEL] + more).Err?
  {
    var data := [TAG_DEL] + more;
    if more != [] { assert data[1] == more[0]; }
    DigitRunEndAt(data, 1, 1);
  }

  /** Inside a batch, a byte at an operation boundary that is neither 's' nor 'd' is rejected. */
  lemma DecodeRejectsBadBatchTag(ops: seq<BatchOp>, x: Byte, more: seq<Byte>)
    requires x != TAG_SET && x != TAG_DEL && !IsDigitByte(x)
    ensures DecodeBatch(BatchEncoding(ops) + [x] + more).Err?
  {
    var data := [x] + more;
    assert data[0] == x;
    assert BatchEncoding(ops) + [x] + more == BatchEncoding(ops) + data;
    BatchEncodingPrefix(ops, data);
  }

  /**
   * Decoding an encoded batch followed by bytes that do not extend its last
   * key decodes the operations and then goes on with those bytes.
   */
  lemma {:induction false} BatchEncodingPrefix(ops: seq<BatchOp>, more: seq<Byte>)
    requires more == [] || !IsDigitByte(more[0])
    ensures DecodeBatch(BatchEncoding(ops) + more) == Prepend(ops, DecodeBatch(more))
  {
    if ops == [] {
      assert BatchEncoding(ops) + more == more;
      PrependEmpty(DecodeBatch(more));
    } else {
      var tail := BatchEncoding(ops[1..]);
      BatchEncodingPrefix(ops[1..], more);
      BatchEncodingStart(ops[1..]);
      assert tail + more == [] || !IsDigitByte((tail + more)[0]) by {
        if tail != [] { assert (tail + more)[0] == tail[0]; }
        else { assert tail + more == more; }
      }
      DecodeBatchOpEncoding(ops[0], tail + more);
      assert BatchEncoding(ops) + more == BatchOpEncoding(ops[0]) + (tail + more);
      PrependAssoc([ops[0]], ops[1..], DecodeBatch(more));
      assert [ops[0]] + ops[1..] == ops;
    }
  }

  /** One encoded batch operation, followed by bytes that do not extend its key, decodes to that operation. */
  lemma DecodeBatchOpEncoding(op: BatchOp, more: seq<Byte>)
    requires more == [] || !IsDigitByte(more[0])
    ensures DecodeBatch(BatchOpEncoding(op) + more) == Prepend([op], DecodeBatch(more))
  {
    var data := BatchOpEncoding(op) + more;
    match op
    case Set =>
      assert data[0] == TAG_SET && data[1..] == more;
    case Del(key) =>
      var digits := DecimalBytes(key);
      assert data == [TAG_DEL] + digits + more;
      assert data[0] == TAG_DEL;
      assert data[1..1 + |digits|] == digits;
      if more != [] { assert data[1 + |digits|] == more[0]; }
      DigitRunEndAt(data, 1, 1 + |digits|);
      assert data[1 + |digits|..] == more;
      ParseDecimal(key, U8_MAX);
  }

  lemma PrependAssoc(a: seq<BatchOp>, b: seq<BatchOp>, r: Result<seq<BatchOp>, DecodeError>)
    ensures Prepend(a, Prepend(b, r)) == Prepend(a + b, r)
  {
    if r.Ok? { assert a + (b + r.value) == (a + b) + r.value; }
  }

  // ---------------------------------------------------------------------------
  // OpReader: newline-terminated records
  // ---------------------------------------------------------------------------

  /** The index of the first newline at or after `from`, if there is one. */
  function NewlineFrom(s: seq<Byte>, from: nat): (r: Option<nat>)
    requires from <= |s|
    ensures r.Some? ==> from <= r.value < |s| && s[r.value] == NEWLINE
    ensures forall i | from <= i < (if r.Some? then r.value else |s|) :: s[i] != NEWLINE
    decreases |s| - from
  {
    if from == |s| then None
    else if s[from] == NEWLINE then Some(from)
    else NewlineFrom(s, from + 1)
  }

  /** The records `OpReader` yields: each line that ends in '\n', without it; a trailing fragment is dropped. */
  function Records(s: seq<Byte>): (lines: seq<seq<Byte>>)
    ensures forall k, i | 0 <= k < |lines| && 0 <= i < |lines[k]| :: lines[k][i] != NEWLINE
    decreases |s|
  {
    match NewlineFrom(s, 0)
    case None => []
    case Some(i) => [s[..i]] + Records(s[i + 1..])
  }

  /** The reader over an input stream; `pos` is how much of the input has been consumed. */
  class OpReader {
    const input: seq<Byte>
    var pos: nat

    ghost predicate Valid()
      reads this
    {
      pos <= |input|
    }

    /** The records not yet read. */
    ghost function Pending(): seq<seq<Byte>>
      reads this
      requires Valid()
    {
      Records(input[pos..])
    }

    constructor (input: seq<Byte>)
      ensures Valid() && this.input == input && pos == 0
    {
      this.input := input;
      pos := 0;
    }

    /**
     * `OpReader::next`: read through the next '\n' and decode what precedes it;
     * at the end of the input, or at a last line without '\n', there is no item.
     */
    method Next() returns (item: Option<Result<Op, DecodeError>>)
      requires Valid()
      modifies this
      ensures Valid()
      ensures old(Pending()) == [] ==> item == None && pos == |input| && Pending() == []
      ensures old(Pending()) != [] ==> item == Some(Decoding(old(Pending())[0])) && Pending() == old(Pending())[1..]
      ensures old(Pending()) != [] ==> pos > old(pos)
    {
      var rest := input[pos..];
      var j := pos;
      while j < |input| && input[j] != NEWLINE
        invariant pos <= j <= |input|
        invariant forall i | pos <= i < j :: input[i] != NEWLINE
      {
        j := j + 1;
      }
      if j == |input| {
        assert NewlineFrom(rest, 0) == None;
        pos := |input|;
        assert input[pos..] == [];
        item := None;
      } else {
        assert rest[j - pos] == NEWLINE;
        assert NewlineFrom(rest, 0) == Some(j - pos);
        var line := input[pos..j];
        assert line == rest[..j - pos];
        assert rest[j - pos + 1..] == input[j + 1..];
        pos := j + 1;
        var decoded := Decode(line);
        item := Some(decoded);
      }
    }
  }

  /**
   * The checker's `OpReader::new(file).map(Result::unwrap).collect()`: all
   * records decoded, or None if one does not decode (the unwrap panics).
   */
  function DecodeRecords(lines: seq<seq<Byte>>): Option<seq<Op>>
  {
    if lines == [] then Some([])
    else match Decoding(lines[0])
      case Err(_) => None
      case Ok(op) => match DecodeRecords(lines[1..])
        case None => None
        case Some(ops) => Some([op] + ops)
  }

  method ReadAll(input: seq<Byte>) returns (ops: Option<seq<Op>>)
    ensures ops == DecodeRecords(Records(input))
  {
    var reader := new OpReader(input);
    var acc: seq<Op> := [];
    assert input[0..] == input;
    assert PrependOps([], DecodeRecords(Records(input))) == DecodeRecords(Records(input)) by {
      if DecodeRecords(Records(input)).Some? { assert [] + DecodeRecords(Records(input)).value == DecodeRecords(Records(input)).value; }
    }
    while true
      invariant reader.Valid() && reader.input == input
      invariant DecodeRecords(Records(input)) == PrependOps(acc, DecodeRecords(reader.Pending()))
      decreases |reader.input| - reader.pos
    {
      ghost var before := reader.Pending();
      var item := reader.Next();
      match item {
        case None =>
          assert acc + [] == acc;
          return Some(acc);
        case Some(Err(_)) =>
          return None;
        case Some(Ok(op)) =>
          assert DecodeRecords(before) == PrependOps([op], DecodeRecords(reader.Pending()));
          PrependOpsAssoc(acc, [op], DecodeRecords(reader.Pending()));
          acc := acc + [op];
      }
    }
  }

  function PrependOps(acc: seq<Op>, r: Option<seq<Op>>): Option<seq<Op>>
  {
    match r
    case None => None
    case Some(ops) => Some(acc + ops)
  }

  lemma PrependOpsAssoc(a: seq<Op>, b: seq<Op>, r: Option<seq<Op>>)
    ensures PrependOps(a, PrependOps(b, r)) == PrependOps(a + b, r)
  {
    if r.Some? { assert a + (b + r.value) == (a + b) + r.value; }
  }

  /** What the workload writes to its stdout: each encoded operation followed by '\n'. */
  function History(ops: seq<Op>): seq<Byte>
  {
    if ops == [] then [] else Encoding(ops[0]) + [NEWLINE] + History(ops[1..])
  }

  /** No encoding contains a newline, so the framing is unambiguous. */
  lemma EncodingHasNoNewline(op: Op)
    ensures forall i | 0 <= i < |Encoding(op)| :: Encoding(op)[i] != NEWLINE
  {
    if op.Batched? { BatchEncodingNoNewline(op.ops); }
  }

  lemma {:induction false} BatchEncodingNoNewline(ops: seq<BatchOp>)
    ensures forall i | 0 <= i < |BatchEncoding(ops)| :: BatchEncoding(ops)[i] != NEWLINE
  {
    if ops != [] { BatchEncodingNoNewline(ops[1..]); }
  }

  /** Reading a history back yields exactly the operations written, in order. */
  lemma {:induction false} ReadHistory(ops: seq<Op>)
    ensures DecodeRecords(Records(History(ops))) == Some(ops)
  {
    if ops != [] {
      var e := Encoding(ops[0]);
      var s := History(ops);
      EncodingHasNoNewline(ops[0]);
      assert s == e + [NEWLINE] + History(ops[1..]);
      assert s[|e|] == NEWLINE;
      assert forall i | 0 <= i < |e| :: s[i] == e[i];
      assert NewlineFrom(s, 0) == Some(|e|);
      assert s[..|e|] == e;
      assert s[|e| + 1..] == History(ops[1..]);
      var lines := Records(s);
      assert lines == [e] + Records(History(ops[1..]));
      assert lines[0] == e && lines[1..] == Records(History(ops[1..]));
      ReadHistory(ops[1..]);
      DecodeEncode(ops[0]);
      assert [ops[0]] + ops[1..] == ops;
    } else {
      assert NewlineFrom([], 0) == None;
    }
  }

  // ---------------------------------------------------------------------------
  // Value codec
  // ---------------------------------------------------------------------------

  /** `SEGMENT_SIZE` of the random_ops case (smaller than the shared one). */
  const RANDOM_OPS_SEGMENT_SIZE: nat := 256

  /**
   * `value_factory`: the counter's two big-endian bytes, extended by copies of
   * the low byte when the high byte is a multiple of four.
   */
  function ValueFactory(setCounter: U16): (v: seq<Byte>)
    ensures |v| >= 2
    ensures (setCounter / 0x100) % 4 != 0 ==> |v| == 2
    ensures (setCounter / 0x100) % 4 == 0 ==>
      |v| == 2 + (setCounter / 0x100) * RANDOM_OPS_SEGMENT_SIZE / 4 * setCounter
    ensures forall i | 2 <= i < |v| :: v[i] == setCounter % 0x100
  {
    var hi, lo := setCounter / 0x100, setCounter % 0x100;
    var val := [hi, lo];
    if hi % 4 == 0 then val + seq(hi * RANDOM_OPS_SEGMENT_SIZE / 4 * setCounter, _ => lo) else val
  }

  /**
   * `decode_value`: the big-endian u16 in the first two bytes. It panics on
   * fewer than two bytes, and asserts the length is exactly two when the
   * first byte is not a multiple of four; those cases are `None`.
   */
  function DecodeValue(bytes: seq<Byte>): (r: Option<U16>)
    ensures r.Some? <==> |bytes| >= 2 && (bytes[0] % 4 != 0 ==> |bytes| == 2)
    ensures r.Some? ==> r.value / 0x100 == bytes[0] && r.value % 0x100 == bytes[1]
  {
    if |bytes| == 0 then None
    else if bytes[0] % 4 != 0 && |bytes| != 2 then None
    else if |bytes| < 2 then None
    else Some(bytes[0] as int * 0x100 + bytes[1])
  }

  /** `u16::to_be_bytes`, the form of every key the workload inserts. */
  function KeyBytes(k: U16): (b: seq<Byte>)
    ensures |b| == 2
  {
    [k / 0x100, k % 0x100]
  }

  /** A value decodes to the counter it was made from, and so do its first two bytes, which are the key's. */
  lemma DecodeValueFactory(c: U16)
    ensures DecodeValue(ValueFactory(c)) == Some(c)
    ensures ValueFactory(c)[..2] == KeyBytes(c)
    ensures DecodeValue(KeyBytes(c)) == Some(c)
  {
  }

  /** Distinct counters give distinct keys. */
  lemma KeyBytesInjective(a: U16, b: U16)
    requires KeyBytes(a) == KeyBytes(b)
    ensures a == b
  {
    assert DecodeValue(KeyBytes(a)) == Some(a);
  }
}
