/**
 The stat records sent between clients and servers, and stored with directory entries.
 */
module FsTypes {
  import opened Coding

  // ------------------------------------------------------------------
  // Sequences of varints
  // ------------------------------------------------------------------

  // A number and whether it takes 64 bits rather than 32.
  datatype Field = Field(wide: bool, value: nat)

  ghost predicate Fits(f: Field) {
    f.value < if f.wide then UINT64 else UINT32
  }

  ghost predicate AllFit(fields: seq<Field>) {
    forall i :: 0 <= i < |fields| ==> Fits(fields[i])
  }

  function EncodeFields(fields: seq<Field>): Bytes {
    if fields == [] then [] else Varint(fields[0].value) + EncodeFields(fields[1..])
  }

  // Decoding stops at the first number that cannot be read.
  function DecodeFields(widths: seq<bool>, input: Bytes): Parsed<seq<Field>> {
    if widths == [] then Ok([], input)
    else
      var r := if widths[0] then GetVarint64(input) else GetVarint32(input);
      if r.Fail? then Fail
      else
        var rest := DecodeFields(widths[1..], r.rest);
        if rest.Fail? then Fail else Ok([Field(widths[0], r.value)] + rest.value, rest.rest)
  }

  function Widths(fields: seq<Field>): seq<bool> {
    seq(|fields|, i requires 0 <= i < |fields| => fields[i].wide)
  }

  function MaxSize(widths: seq<bool>): nat {
    if widths == [] then 0 else (if widths[0] then 10 else 5) + MaxSize(widths[1..])
  }

  lemma {:induction false} FieldsRoundTrip(fields: seq<Field>, suffix: Bytes)
    requires AllFit(fields)
    ensures DecodeFields(Widths(fields), EncodeFields(fields) + suffix) == Ok(fields, suffix)
    ensures |EncodeFields(fields)| <= MaxSize(Widths(fields))
    decreases |fields|
  {
    hide Varint;
    hide GetVarint32;
    hide GetVarint64;
    if fields == [] {
      assert EncodeFields(fields) + suffix == suffix;
    } else {
      var f, rest := fields[0], EncodeFields(fields[1..]);
      assert Fits(f);
      assert EncodeFields(fields) + suffix == Varint(f.value) + (rest + suffix);
      if f.wide {
        Varint64RoundTrip(f.value, rest + suffix);
      } else {
        Varint32RoundTrip(f.value, rest + suffix);
      }
      FieldsRoundTrip(fields[1..], suffix);
      assert Widths(fields)[1..] == Widths(fields[1..]);
      assert [f] + fields[1..] == fields;
    }
  }

  /** Fields that are cut off cannot be read. */
  lemma {:induction false} FieldsCut(fields: seq<Field>, k: nat)
    requires AllFit(fields) && k < |EncodeFields(fields)|
    ensures DecodeFields(Widths(fields), EncodeFields(fields)[..k]) == Fail
    decreases |fields|
  {
    hide Varint;
    hide DecodeVarint;
    var f, rest := fields[0], EncodeFields(fields[1..]);
    var head, cut := Varint(f.value), EncodeFields(fields)[..k];
    assert Fits(f);
    assert Widths(fields)[1..] == Widths(fields[1..]);
    if k < |head| {
      VarintCut(f.value, 5, k);
      VarintCut(f.value, 10, k);
      assert cut == head[..k];
    } else {
      var tail := rest[..k - |head|];
      assert cut == head + tail;
      if f.wide {
        Varint64RoundTrip(f.value, tail);
      } else {
        Varint32RoundTrip(f.value, tail);
      }
      hide GetVarint32;
      hide GetVarint64;
      FieldsCut(fields[1..], k - |head|);
    }
  }

  // ------------------------------------------------------------------
  // The records
  // ------------------------------------------------------------------

  datatype Stat = Stat(
    reg: nat, snap: nat, ino: nat, size: nat, mode: nat, zserver: nat, uid: nat, gid: nat, mtime: nat, ctime: nat)

  datatype LookupStat = LookupStat(
    reg: nat, snap: nat, ino: nat, zserver: nat, mode: nat, uid: nat, gid: nat, leaseDue: nat)

  function StatFields(s: Stat): seq<Field> {
    [Field(true, s.reg), Field(true, s.snap), Field(true, s.ino), Field(true, s.size), Field(false, s.mode),
     Field(false, s.zserver), Field(false, s.uid), Field(false, s.gid), Field(true, s.mtime), Field(true, s.ctime)]
  }

  function LookupFields(s: LookupStat): seq<Field> {
    [Field(true, s.reg), Field(true, s.snap), Field(true, s.ino), Field(false, s.zserver), Field(false, s.mode),
     Field(false, s.uid), Field(false, s.gid), Field(true, s.leaseDue)]
  }

  const STAT_WIDTHS := [true, true, true, true, false, false, false, false, true, true]
  const LOOKUP_WIDTHS := [true, true, true, false, false, false, false, true]

  function DecodeStat(input: Bytes): Parsed<Stat> {
    var r := DecodeFields(STAT_WIDTHS, input);
    if r.Fail? || |r.value| != 10 then Fail
    else
      var v := r.value;
      Ok(Stat(v[0].value, v[1].value, v[2].value, v[3].value, v[4].value,
              v[5].value, v[6].value, v[7].value, v[8].value, v[9].value), r.rest)
  }

  function DecodeLookupStat(input: Bytes): Parsed<LookupStat> {
    var r := DecodeFields(LOOKUP_WIDTHS, input);
    if r.Fail? || |r.value| != 8 then Fail
    else
      var v := r.value;
      Ok(LookupStat(v[0].value, v[1].value, v[2].value, v[3].value,
                    v[4].value, v[5].value, v[6].value, v[7].value), r.rest)
  }

  lemma StatWidths(s: Stat)
    ensures Widths(StatFields(s)) == STAT_WIDTHS && MaxSize(STAT_WIDTHS) == 80
  {
    assert MaxSize([false, false, true, true]) == 30;
    assert MaxSize([true, false, false, false, false, true, true]) == 50;
  }

  lemma LookupWidths(s: LookupStat)
    ensures Widths(LookupFields(s)) == LOOKUP_WIDTHS && MaxSize(LOOKUP_WIDTHS) == 60
  {
  }

  /** A stat record can be read back, whatever follows it, and takes at most 80 bytes. */
  lemma StatRoundTrip(s: Stat, suffix: Bytes)
    requires AllFit(StatFields(s))
    ensures DecodeStat(EncodeFields(StatFields(s)) + suffix) == Ok(s, suffix)
    ensures |EncodeFields(StatFields(s))| <= 80
  {
    hide EncodeFields;
    hide DecodeFields;
    StatWidths(s);
    FieldsRoundTrip(StatFields(s), suffix);
  }

  /** A lookup result likewise, in at most 60 bytes. */
  lemma LookupStatRoundTrip(s: LookupStat, suffix: Bytes)
    requires AllFit(LookupFields(s))
    ensures DecodeLookupStat(EncodeFields(LookupFields(s)) + suffix) == Ok(s, suffix)
    ensures |EncodeFields(LookupFields(s))| <= 60
  {
    hide EncodeFields;
    hide DecodeFields;
    LookupWidths(s);
    FieldsRoundTrip(LookupFields(s), suffix);
  }

  // ------------------------------------------------------------------
  // Encoders
  // ------------------------------------------------------------------

  lemma EncodeStep(dst: Bytes, fields: seq<Field>)
    requires fields != []
    ensures dst + Varint(fields[0].value) + EncodeFields(fields[1..]) == dst + EncodeFields(fields)
  {
  }

  // Append numbers one by one.
  method PutFields(dst: Bytes, fields: seq<Field>) returns (out: Bytes)
    requires AllFit(fields)
    ensures out == dst + EncodeFields(fields)
  {
    hide Varint;
    out := dst;
    var i := 0;
    while i < |fields|
      invariant 0 <= i <= |fields| && out + EncodeFields(fields[i..]) == dst + EncodeFields(fields)
    {
      var f := fields[i];
      assert Fits(f);
      EncodeStep(out, fields[i..]);
      assert fields[i..][1..] == fields[i + 1..];
      if f.wide {
        out := EncodeVarint64(out, f.value);
      } else {
        out := EncodeVarint32(out, f.value);
      }
      i := i + 1;
    }
  }

  /** Encode a stat record into a scratch buffer. */
  // Numbers one after the other.
  function Varints(values: seq<nat>): Bytes {
    if values == [] then [] else Varint(values[0]) + Varints(values[1..])
  }

  lemma {:induction false} FieldsAreVarints(fields: seq<Field>, values: seq<nat>)
    requires |values| == |fields| && forall i :: 0 <= i < |fields| ==> fields[i].value == values[i]
    ensures EncodeFields(fields) == Varints(values)
    decreases |fields|
  {
    if fields == [] {
    } else {
      FieldsAreVarints(fields[1..], values[1..]);
    }
  }

  method EncodeStat(s: Stat) returns (out: Bytes)
    requires AllFit(StatFields(s))
    ensures |out| <= 80 && DecodeStat(out) == Ok(s, [])
    ensures out == Varints([s.reg, s.snap, s.ino, s.size, s.mode, s.zserver, s.uid, s.gid, s.mtime, s.ctime])
  {
    hide Varints;
    hide EncodeFields;
    FieldsAreVarints(StatFields(s), [s.reg, s.snap, s.ino, s.size, s.mode, s.zserver, s.uid, s.gid, s.mtime, s.ctime]);
    hide DecodeStat;
    out := PutFields([], StatFields(s));
    StatRoundTrip(s, []);
    assert out == EncodeFields(StatFields(s)) + [];
  }

  method EncodeLookupStat(s: LookupStat) returns (out: Bytes)
    requires AllFit(LookupFields(s))
    ensures |out| <= 60 && DecodeLookupStat(out) == Ok(s, [])
    ensures out == Varints([s.reg, s.snap, s.ino, s.zserver, s.mode, s.uid, s.gid, s.leaseDue])
  {
    hide Varints;
    hide EncodeFields;
    FieldsAreVarints(LookupFields(s), [s.reg, s.snap, s.ino, s.zserver, s.mode, s.uid, s.gid, s.leaseDue]);
    hide DecodeLookupStat;
    out := PutFields([], LookupFields(s));
    LookupStatRoundTrip(s, []);
    assert out == EncodeFields(LookupFields(s)) + [];
  }

  /** A record that is cut off anywhere is refused. */
  lemma CutRefused(s: Stat, l: LookupStat, k: nat)
    requires AllFit(StatFields(s)) && AllFit(LookupFields(l))
    ensures k < |EncodeFields(StatFields(s))| ==> DecodeStat(EncodeFields(StatFields(s))[..k]) == Fail
    ensures k < |EncodeFields(LookupFields(l))| ==> DecodeLookupStat(EncodeFields(LookupFields(l))[..k]) == Fail
  {
    hide EncodeFields;
    hide DecodeFields;
    StatWidths(s);
    LookupWidths(l);
    if k < |EncodeFields(StatFields(s))| {
      FieldsCut(StatFields(s), k);
    }
    if k < |EncodeFields(LookupFields(l))| {
      FieldsCut(LookupFields(l), k);
    }
  }
}
