/** Unmarshal of the proof messages: loops over an index into the input, proved against the decoding functions. */
module Ics23Unmarshal {
  import opened Basics
  import opened Varint
  import opened Ics23Types
  import opened Ics23Wire
  import Grammar = Ics23Grammar
  import Messages = Ics23Messages

  // ----- varints -----

  /** A varint of which n bytes with value `low` are read and `high` is what the others give. */
  function Joined(low: nat, n: nat, high: Option<Scanned>): Option<Scanned> {
    match high
    case None => None
    case Some(s) => Some(Scanned(low + Pow128(n) * s.value, n + s.length))
  }

  /** What the byte number n of a varint adds to its value. */
  function Term(b: Byte, n: nat): nat {
    b % 128 * Pow128(n)
  }

  lemma JoinedStep(data: Bytes, low: nat, n: nat)
    requires n < MAX_VARINT_LEN && data != [] && data[0] >= 128
    ensures Joined(low, n, Scan(data, n)) == Joined(low + Term(data[0], n), n + 1, Scan(data[1..], n + 1))
  {
    match Scan(data[1..], n + 1)
    case None =>
    case Some(s) =>
      var low7 := data[0] - 128;
      assert Scan(data, n) == Some(Scanned(low7 + 128 * s.value, s.length + 1));
      TermOfHigh(data[0], n);
      Distribute(low, Pow128(n), low7, s.value);
  }

  lemma TermOfHigh(b: Byte, n: nat)
    requires b >= 128
    ensures Term(b, n) == (b - 128) * Pow128(n)
  {
    assert b % 128 == b - 128;
  }

  lemma JoinedLast(data: Bytes, low: nat, n: nat)
    requires n < MAX_VARINT_LEN && data != [] && data[0] < 128
    ensures Joined(low, n, Scan(data, n)) == Some(Scanned(low + Term(data[0], n), n + 1))
  {
    Distribute(low, Pow128(n), data[0], 0);
  }

  lemma JoinedFirst(data: Bytes)
    ensures Joined(0, 0, Scan(data)) == Scan(data)
  {
  }

  lemma JoinedNone(data: Bytes, low: nat, n: nat)
    requires n >= MAX_VARINT_LEN || data == []
    ensures Joined(low, n, Scan(data, n)) == None
  {
  }

  lemma Distribute(low: nat, p: nat, b: nat, x: nat)
    ensures low + p * (b + 128 * x) == low + b * p + (128 * p) * x
  {
  }

  /** A varint whose value wraps at 64 bits. */
  function Wrapped(v: Option<Scanned>): (r: Option<Scanned>)
    ensures r.Some? <==> v.Some?
    ensures r.Some? ==> r.value.length == v.value.length && r.value.value < TWO64
  {
    match v
    case None => None
    case Some(s) => Some(Scanned(s.value % TWO64, s.length))
  }

  /** The loop every varint is read with: at most ten bytes, and the value wraps at 64 bits. */
  method DecodeVarint(data: Bytes, start: nat) returns (r: Option<Scanned>)
    requires start <= |data|
    ensures r == Wrapped(Scan(data[start..]))
  {
    var value: nat, shift, n: nat := 0, 0, 0;
    ghost var low: nat, all := 0, Scan(data[start..]);
    JoinedFirst(data[start..]);
    while true
      invariant shift == 7 * n && n <= MAX_VARINT_LEN && start + n <= |data|
      invariant value == low % TWO64
      invariant Joined(low, n, Scan(data[start + n..], n)) == all
      decreases MAX_VARINT_LEN - n
    {
      if shift >= 64 {
        JoinedNone(data[start + n..], low, n);
        return None;
      }
      if start + n >= |data| {
        JoinedNone(data[start + n..], low, n);
        return None;
      }
      var b := data[start + n];
      assert data[start + n..][0] == b && data[start + n..][1..] == data[start + n + 1..];
      value := AddWrapped(value, Term(b, n), low);
      if b < 128 {
        JoinedLast(data[start + n..], low, n);
        return Some(Scanned(value, n + 1));
      }
      JoinedStep(data[start + n..], low, n);
      low := low + Term(b, n);
      n := n + 1;
      shift := shift + 7;
    }
  }

  /** Adding modulo 2^64 to a sum that is already reduced. */
  function AddWrapped(value: nat, x: nat, ghost low: nat): (r: nat)
    requires value == low % TWO64
    ensures r == (low + x) % TWO64
  {
    (value + x) % TWO64
  }

  lemma Suffix(data: Bytes, i: nat, k: nat)
    requires i + k <= |data|
    ensures data[i..][k..] == data[i + k..]
  {
  }

  // ----- fields -----

  method NextField(data: Bytes, i: nat) returns (f: Option<Field>, next: nat)
    requires i <= |data|
    ensures f == ReadField(data[i..])
    ensures f.Some? ==> i < next <= |data| && f.value.rest == data[next..]
  {
    next := i;
    var wire := DecodeVarint(data, i);
    if wire.None? {
      return None, next;
    }
    next := i + wire.value.length;
    Suffix(data, i, wire.value.length);
    var fieldNum, wireType := ToInt32(wire.value.value / 8), wire.value.value % 8;
    if wireType == 4 {
      return None, next;
    }
    if fieldNum <= 0 {
      return None, next;
    }
    f := Some(Field(fieldNum, wireType, data[next..]));
  }

  method NextEnum(data: Bytes, i: nat) returns (r: Option<Number>, next: nat)
    requires i <= |data|
    ensures r == ReadEnum(data[i..])
    ensures r.Some? ==> i < next <= |data| && r.value.rest == data[next..]
  {
    next := i;
    var v := DecodeVarint(data, i);
    if v.None? {
      return None, next;
    }
    next := i + v.value.length;
    Suffix(data, i, v.value.length);
    LowBits(Scan(data[i..]).value.value);
    r := Some(Number(ToInt32(v.value.value), data[next..]));
  }

  lemma LowBits(v: nat)
    ensures ToInt32(v % TWO64) == ToInt32(v)
  {
    assert TWO64 == 0x1_0000_0000 * 0x1_0000_0000;
    assert v % TWO64 % 0x1_0000_0000 == v % 0x1_0000_0000;
  }

  method NextPayload(data: Bytes, i: nat) returns (r: Option<Payload>, next: nat)
    requires i <= |data|
    ensures r == ReadPayload(data[i..])
    ensures r.Some? ==> i < next <= |data| && r.value.rest == data[next..]
  {
    next := i;
    var v := DecodeVarint(data, i);
    if v.None? {
      return None, next;
    }
    var byteLen := v.value.value;
    if byteLen >= TWO63 {
      return None, next;
    }
    var from := i + v.value.length;
    var postIndex := from + byteLen;
    if postIndex > |data| {
      return None, next;
    }
    next := postIndex;
    Suffix(data, i, v.value.length + byteLen);
    assert data[i..][v.value.length..v.value.length + byteLen] == data[from..postIndex];
    r := Some(Payload(data[from..postIndex], data[next..]));
  }

  method NextSkipped(data: Bytes, at: nat, wireType: int, depth: nat) returns (r: Option<Position>)
    requires at <= |data|
    ensures r == SkipPayload(data, at, wireType, depth)
  {
    if wireType == 0 {
      var v := DecodeVarint(data, at);
      return if v.None? then None else Some(Position(at + v.value.length, depth));
    } else if wireType == 1 {
      return Some(Position(at + 8, depth));
    } else if wireType == 2 {
      var v := DecodeVarint(data, at);
      if v.None? || v.value.value >= TWO63 {
        return None;
      }
      return Some(Position(at + v.value.length + v.value.value, depth));
    } else if wireType == 3 {
      return Some(Position(at, depth + 1));
    } else if wireType == 4 {
      return if depth == 0 then None else Some(Position(at, depth - 1));
    } else if wireType == 5 {
      return Some(Position(at + 4, depth));
    }
    return None;
  }

  /** The body of the loop of skipProofs: one key and what belongs to it. */
  method SkipOne(data: Bytes, i: nat, depth: nat) returns (p: Option<Position>)
    requires i < |data|
    ensures p == SkipNext(data, i, depth)
  {
    var wire := DecodeVarint(data, i);
    if wire.None? {
      return None;
    }
    p := NextSkipped(data, i + wire.value.length, wire.value.value % 8, depth);
  }

  lemma FieldsAreSkipped(data: Bytes)
    ensures forall n :: 0 <= n <= |data| ==> (Skip(data, 0, 0) == Some(n) <==> Grammar.IsField(data[..n]))
  {
    forall n | 0 <= n <= |data| ensures Skip(data, 0, 0) == Some(n) <==> Grammar.IsField(data[..n]) {
      Grammar.SkipExactly(data, n);
    }
  }

  /** skipProofs: the loop that steps over one field, counting open groups. */
  method SkipProofs(data: Bytes) returns (r: Option<nat>)
    ensures r == Skip(data, 0, 0)
    ensures forall n :: 0 <= n <= |data| ==> (r == Some(n) <==> Grammar.IsField(data[..n]))
  {
    FieldsAreSkipped(data);
    var i: nat, depth: nat := 0, 0;
    ghost var end := Skip(data, i, depth);
    while i < |data|
      invariant Skip(data, i, depth) == end
      decreases |data| - i
    {
      var p := SkipOne(data, i, depth);
      if p.None? {
        return None;
      }
      i, depth := p.value.at, p.value.depth;
      if depth == 0 {
        return Some(i);
      }
    }
    return None;
  }

  method NextUnknown(data: Bytes, i: nat) returns (ok: bool, next: nat)
    requires i <= |data|
    ensures ok == SkipField(data[i..]).Some?
    ensures ok ==> i < next <= |data| && SkipField(data[i..]).value == data[next..]
  {
    next := i;
    var skippy := SkipProofs(data[i..]);
    if skippy.None? || i + skippy.value > |data| {
      return false, next;
    }
    next := i + skippy.value;
    Suffix(data, i, skippy.value);
    return true, next;
  }

  // ----- messages -----

  lemma InnerMeans(data: Bytes)
    ensures forall x :: DecodeInner(data, NoInner) == Some(x) <==>
                        Messages.Means(Messages.InnerSchema, data, NoInner, x)
  {
    forall x
      ensures DecodeInner(data, NoInner) == Some(x) <==> Messages.Means(Messages.InnerSchema, data, NoInner, x)
    {
      Messages.InnerExactly(data, NoInner, x);
    }
  }

  lemma LeafMeans(data: Bytes, m0: LeafOp)
    ensures forall x :: DecodeLeaf(data, m0) == Some(x) <==>
                        Messages.Means(Messages.LeafSchema, data, m0, x)
  {
    forall x
      ensures DecodeLeaf(data, m0) == Some(x) <==> Messages.Means(Messages.LeafSchema, data, m0, x)
    {
      Messages.LeafExactly(data, m0, x);
    }
  }

  lemma ExistenceMeans(data: Bytes)
    ensures forall x :: DecodeExistence(data, NoExistence) == Some(x) <==>
                        Messages.Means(Messages.ExistenceSchema, data, NoExistence, x)
  {
    forall x
      ensures DecodeExistence(data, NoExistence) == Some(x) <==>
              Messages.Means(Messages.ExistenceSchema, data, NoExistence, x)
    {
      Messages.ExistenceExactly(data, NoExistence, x);
    }
  }

  /** InnerOp.Unmarshal into an empty message. */
  method UnmarshalInner(data: Bytes) returns (r: Option<InnerOp>)
    ensures r == DecodeInner(data, NoInner)
    ensures forall x :: r == Some(x) <==> Messages.Means(Messages.InnerSchema, data, NoInner, x)
  {
    InnerMeans(data);
    var m, i: nat := NoInner, 0;
    while i < |data|
      invariant i <= |data|
      invariant DecodeInner(data[i..], m) == DecodeInner(data, NoInner)
    {
      var preIndex := i;
      var f, next := NextField(data, i);
      if f.None? {
        return None;
      }
      if f.value.number == 1 {
        if f.value.wireType != 0 {
          return None;
        }
        var n, end := NextEnum(data, next);
        if n.None? {
          return None;
        }
        m, i := m.(hash := n.value.value), end;
      } else if f.value.number == 2 || f.value.number == 3 {
        if f.value.wireType != 2 {
          return None;
        }
        var p, end := NextPayload(data, next);
        if p.None? {
          return None;
        }
        m := if f.value.number == 2 then m.(prefix := p.value.body) else m.(suffix := p.value.body);
        i := end;
      } else {
        var ok, end := NextUnknown(data, preIndex);
        if !ok {
          return None;
        }
        i := end;
      }
    }
    return Some(m);
  }

  /** LeafOp.Unmarshal into the message m0. */
  method UnmarshalLeaf(data: Bytes, m0: LeafOp) returns (r: Option<LeafOp>)
    ensures r == DecodeLeaf(data, m0)
    ensures forall x :: r == Some(x) <==> Messages.Means(Messages.LeafSchema, data, m0, x)
  {
    LeafMeans(data, m0);
    var m, i: nat := m0, 0;
    while i < |data|
      invariant i <= |data|
      invariant DecodeLeaf(data[i..], m) == DecodeLeaf(data, m0)
    {
      var preIndex := i;
      var f, next := NextField(data, i);
      if f.None? {
        return None;
      }
      if 1 <= f.value.number <= 4 {
        if f.value.wireType != 0 {
          return None;
        }
        var n, end := NextEnum(data, next);
        if n.None? {
          return None;
        }
        m := if f.value.number == 1 then m.(hash := n.value.value)
             else if f.value.number == 2 then m.(prehashKey := n.value.value)
             else if f.value.number == 3 then m.(prehashValue := n.value.value)
             else m.(length := n.value.value);
        i := end;
      } else if f.value.number == 5 {
        if f.value.wireType != 2 {
          return None;
        }
        var p, end := NextPayload(data, next);
        if p.None? {
          return None;
        }
        m, i := m.(prefix := p.value.body), end;
      } else {
        var ok, end := NextUnknown(data, preIndex);
        if !ok {
          return None;
        }
        i := end;
      }
    }
    return Some(m);
  }

  /** One known field of an existence proof. */
  method Merge(m: ExistenceProof, number: int, body: Bytes) returns (r: Option<ExistenceProof>)
    requires 1 <= number <= 4
    ensures r == MergeExistence(m, number, body)
  {
    if number == 1 {
      return Some(m.(key := body));
    } else if number == 2 {
      return Some(m.(value := body));
    } else if number == 3 {
      var leaf := UnmarshalLeaf(body, if m.leaf.None? then NoLeaf else m.leaf.value);
      if leaf.None? {
        return None;
      }
      return Some(m.(leaf := leaf));
    }
    var op := UnmarshalInner(body);
    if op.None? {
      return None;
    }
    return Some(m.(path := m.path + [op.value]));
  }

  /** ExistenceProof.Unmarshal into an empty message. */
  method UnmarshalExistence(data: Bytes) returns (r: Option<ExistenceProof>)
    ensures r == DecodeExistence(data, NoExistence)
    ensures forall x :: r == Some(x) <==> Messages.Means(Messages.ExistenceSchema, data, NoExistence, x)
  {
    ExistenceMeans(data);
    var m, i: nat := NoExistence, 0;
    while i < |data|
      invariant i <= |data|
      invariant DecodeExistence(data[i..], m) == DecodeExistence(data, NoExistence)
    {
      var preIndex := i;
      var f, next := NextField(data, i);
      if f.None? {
        return None;
      }
      if 1 <= f.value.number <= 4 {
        if f.value.wireType != 2 {
          return None;
        }
        var p, end := NextPayload(data, next);
        if p.None? {
          return None;
        }
        var merged := Merge(m, f.value.number, p.value.body);
        if merged.None? {
          return None;
        }
        m, i := merged.value, end;
      } else {
        var ok, end := NextUnknown(data, preIndex);
        if !ok {
          return None;
        }
        i := end;
      }
    }
    return Some(m);
  }
}
