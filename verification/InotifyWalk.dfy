/** Decoding the buffer of variable-length records that a read from inotify fills. */
module InotifyWalk {
  import opened Sequences
  import opened WatchEvents

  newtype byte = b: int | 0 <= b < 256

  const EVENT_SIZE: nat := 16
  const IN_MODIFY: nat := 0x2
  const IN_CREATE: nat := 0x100
  const IN_DELETE: nat := 0x200
  const TWO_TO_THE_32: nat := 0x1_0000_0000

  /** `struct inotify_event`: `field` holds the name and the zero bytes that pad it. */
  datatype Record = Record(wd: nat, mask: nat, cookie: nat, field: seq<byte>) {
    /** A field is empty or ends its name with a zero byte; numbers are unsigned 32-bit. */
    ghost predicate Valid() {
      && wd < TWO_TO_THE_32 && mask < TWO_TO_THE_32 && cookie < TWO_TO_THE_32 && |field| < TWO_TO_THE_32
      && (field != [] ==> 0 in field)
    }
  }

  function EncodeU32(n: nat): (bytes: seq<byte>)
    ensures |bytes| == 4
  {
    [(n % 256) as byte, (n / 256 % 256) as byte, (n / 256 / 256 % 256) as byte, (n / 256 / 256 / 256 % 256) as byte]
  }

  function DecodeU32(bytes: seq<byte>, i: nat): nat
    requires i + 4 <= |bytes|
  {
    bytes[i] as nat + 256 * bytes[i + 1] as nat + 65536 * bytes[i + 2] as nat + 16777216 * bytes[i + 3] as nat
  }

  lemma U32RoundTrip(before: seq<byte>, n: nat, after: seq<byte>)
    requires n < TWO_TO_THE_32
    ensures DecodeU32(before + EncodeU32(n) + after, |before|) == n
  {
    var bytes, code := before + EncodeU32(n) + after, EncodeU32(n);
    assert bytes[|before|] == code[0] && bytes[|before| + 1] == code[1];
    assert bytes[|before| + 2] == code[2] && bytes[|before| + 3] == code[3];
    U32Digits(n);
  }

  lemma U32Digits(n: nat)
    requires n < TWO_TO_THE_32
    ensures n == n % 256 + 256 * (n / 256 % 256) + 65536 * (n / 256 / 256 % 256)
      + 16777216 * (n / 256 / 256 / 256 % 256)
  {
  }

  function Encode(r: Record): (bytes: seq<byte>)
    ensures |bytes| == EVENT_SIZE + |r.field|
  {
    EncodeU32(r.wd) + EncodeU32(r.mask) + EncodeU32(r.cookie) + EncodeU32(|r.field|) + r.field
  }

  function EncodeAll(records: seq<Record>): seq<byte> {
    if records == [] then [] else Encode(records[0]) + EncodeAll(records[1..])
  }

  /** The C string that starts a field: everything up to the first zero byte. */
  function CString(field: seq<byte>): seq<byte>
    requires 0 in field
  {
    if field[0] == 0 then [] else [field[0]] + CString(field[1..])
  }

  predicate Flag(mask: nat, flag: nat)
    requires flag > 0
  {
    mask / flag % 2 == 1
  }

  datatype Report = Report(name: seq<byte>, event: Event)

  /** Created before deleted before modified; a record without any of the three says nothing. */
  function EventOf(r: Record, passes: seq<byte> -> bool): seq<Report>
    requires r.field != [] ==> 0 in r.field
  {
    if r.field == [] || !passes(CString(r.field)) then []
    else if Flag(r.mask, IN_CREATE) then [Report(CString(r.field), Added)]
    else if Flag(r.mask, IN_DELETE) then [Report(CString(r.field), Removed)]
    else if Flag(r.mask, IN_MODIFY) then [Report(CString(r.field), Modified)]
    else []
  }

  ghost predicate AreValid(records: seq<Record>) {
    forall i :: 0 <= i < |records| ==> records[i].Valid()
  }

  function EventsOf(records: seq<Record>, passes: seq<byte> -> bool): seq<Report>
    requires forall i :: 0 <= i < |records| ==> (records[i].field != [] ==> 0 in records[i].field)
  {
    if records == [] then [] else EventOf(records[0], passes) + EventsOf(records[1..], passes)
  }

  // --- What is reported, byte by byte ---

  lemma {:induction false} PaddedName(name: seq<byte>, padding: seq<byte>)
    requires 0 !in name && padding != [] && padding[0] == 0
    ensures 0 in name + padding && CString(name + padding) == name
  {
    assert (name + padding)[|name|] == padding[0];
    if name != [] {
      PaddedName(name[1..], padding);
      assert (name + padding)[1..] == name[1..] + padding && (name + padding)[0] == name[0];
      assert name == [name[0]] + name[1..];
    } else {
      assert name + padding == padding;
    }
  }

  lemma FlagBit(mask: nat, flag: nat)
    requires flag == 2 || flag == 0x100 || flag == 0x200
    ensures Flag(mask, flag) <==> mask % (2 * flag) >= flag
  {
    if flag == 2 {
    } else if flag == 0x100 {
    } else {
    }
  }

  /** The report about a record is its name up to the padding, with the first that applies of the bits 0x100
      for added, 0x200 for removed and 2 for modified, whatever other bits are set. A record without a name, or
      with a name that does not pass, is not reported. */
  lemma ReportOfRecord(r: Record, name: seq<byte>, padding: seq<byte>, passes: seq<byte> -> bool)
    requires 0 !in name && padding != [] && padding[0] == 0 && r.field == name + padding
    ensures EventOf(r, passes) ==
      if !passes(name) then []
      else if r.mask % 0x200 >= 0x100 then [Report(name, Added)]
      else if r.mask % 0x400 >= 0x200 then [Report(name, Removed)]
      else if r.mask % 4 >= 2 then [Report(name, Modified)]
      else []
    ensures EventOf(r.(field := []), passes) == []
  {
    hide Flag;
    PaddedName(name, padding);
    FlagBit(r.mask, 0x100);
    FlagBit(r.mask, 0x200);
    FlagBit(r.mask, 2);
  }

  /** Records are reported one after the other, each on its own. */
  lemma {:induction false} ReportsAppend(a: seq<Record>, b: seq<Record>, passes: seq<byte> -> bool)
    requires forall i :: 0 <= i < |a| ==> (a[i].field != [] ==> 0 in a[i].field)
    requires forall i :: 0 <= i < |b| ==> (b[i].field != [] ==> 0 in b[i].field)
    ensures EventsOf(a + b, passes) == EventsOf(a, passes) + EventsOf(b, passes)
    ensures |a| == 1 ==> EventsOf(a, passes) == EventOf(a[0], passes)
    decreases |a|
  {
    hide EventOf;
    if a == [] {
      assert a + b == b;
    } else {
      ReportsAppend(a[1..], b, passes);
      assert (a + b)[1..] == a[1..] + b;
      Associative(EventOf(a[0], passes), EventsOf(a[1..], passes), EventsOf(b, passes));
    }
  }

  /** Where the records begin, the first of them at `offset`. */
  function Boundaries(records: seq<Record>, offset: nat): seq<nat> {
    if records == [] then [] else [offset] + Boundaries(records[1..], offset + EVENT_SIZE + |records[0].field|)
  }

  /** What the walk reads at an offset is the record that begins there. */
  lemma HeaderAt(before: seq<byte>, r: Record, after: seq<byte>)
    requires r.Valid()
    ensures var buffer := before + Encode(r) + after;
      && DecodeU32(buffer, |before| + 4) == r.mask
      && DecodeU32(buffer, |before| + 12) == |r.field|
      && buffer[|before| + EVENT_SIZE..|before| + EVENT_SIZE + |r.field|] == r.field
  {
    hide DecodeU32, EncodeU32;
    var wd, mask, cookie, len := EncodeU32(r.wd), EncodeU32(r.mask), EncodeU32(r.cookie), EncodeU32(|r.field|);
    Regroup(before, wd, mask, cookie, len, r.field, after);
    hide Encode;
    U32RoundTrip(before + wd, r.mask, cookie + len + r.field + after);
    U32RoundTrip(before + wd + mask + cookie, |r.field|, r.field + after);
  }

  lemma Regroup(before: seq<byte>, a: seq<byte>, b: seq<byte>, c: seq<byte>, d: seq<byte>, e: seq<byte>,
                after: seq<byte>)
    ensures before + (a + b + c + d + e) + after == before + a + b + (c + d + e + after)
    ensures before + (a + b + c + d + e) + after == before + a + b + c + d + (e + after)
    ensures var n := |before| + |a| + |b| + |c| + |d|;
      (before + (a + b + c + d + e) + after)[n..n + |e|] == e
  {
  }

  /** The part of the buffer from `i` on holds `rest`; the records before it are accounted for. */
  ghost predicate Walked(records: seq<Record>, passes: seq<byte> -> bool, i: nat, parsed: seq<Report>,
                         visited: seq<nat>, rest: seq<Record>)
    requires AreValid(records) && AreValid(rest)
  {
    && EventsOf(records, passes) == parsed + EventsOf(rest, passes)
    && Boundaries(records, 0) == visited + Boundaries(rest, i)
  }

  lemma WalkOne(records: seq<Record>, passes: seq<byte> -> bool, i: nat, parsed: seq<Report>,
                visited: seq<nat>, rest: seq<Record>)
    requires AreValid(records) && AreValid(rest) && rest != []
    requires Walked(records, passes, i, parsed, visited, rest)
    ensures AreValid(rest[1..]) && rest[0].Valid()
    ensures Walked(records, passes, i + EVENT_SIZE + |rest[0].field|,
      parsed + EventOf(rest[0], passes), visited + [i], rest[1..])
  {
    hide EventOf;
    Associative(parsed, EventOf(rest[0], passes), EventsOf(rest[1..], passes));
    Associative(visited, [i], Boundaries(rest[1..], i + EVENT_SIZE + |rest[0].field|));
  }

  /** One read's worth of the monitor loop; `length` bytes of the buffer are valid. */
  method ParseEvents(buffer: seq<byte>, length: nat, passes: seq<byte> -> bool, ghost records: seq<Record>)
    returns (parsedInformation: seq<Report>, ghost visited: seq<nat>)
    requires length <= |buffer| && AreValid(records) && buffer[..length] == EncodeAll(records)
    ensures parsedInformation == EventsOf(records, passes)
    ensures visited == Boundaries(records, 0)
  {
    hide DecodeU32, Encode, EncodeAll, Flag, AreValid, CString, EventsOf, Boundaries, Walked;
    var i := 0;
    parsedInformation, visited := [], [];
    WalkStarts(records, passes);
    ghost var rest := records;
    assert buffer[0..length] == buffer[..length];
    while i < length
      invariant i <= length && AreValid(rest) && buffer[i..length] == EncodeAll(rest)
      invariant Walked(records, passes, i, parsedInformation, visited, rest)
      decreases length - i
    {
      NextRecord(buffer, i, length, rest);
      WalkOne(records, passes, i, parsedInformation, visited, rest);
      ghost var was := parsedInformation;
      visited := visited + [i];
      var mask, len := DecodeU32(buffer, i + 4), DecodeU32(buffer, i + 12);
      if len != 0 {
        var changedFile := CString(buffer[i + EVENT_SIZE..i + EVENT_SIZE + len]);
        if passes(changedFile) {
          if Flag(mask, IN_CREATE) {
            parsedInformation := parsedInformation + [Report(changedFile, Added)];
          } else if Flag(mask, IN_DELETE) {
            parsedInformation := parsedInformation + [Report(changedFile, Removed)];
          } else if Flag(mask, IN_MODIFY) {
            parsedInformation := parsedInformation + [Report(changedFile, Modified)];
          }
        }
      }
      assert parsedInformation == was + EventOf(rest[0], passes);
      i := i + EVENT_SIZE + len;
      rest := rest[1..];
    }
    WalkEnds(records, passes, i, parsedInformation, visited, rest);
  }

  lemma WalkStarts(records: seq<Record>, passes: seq<byte> -> bool)
    requires AreValid(records)
    ensures Walked(records, passes, 0, [], [], records)
  {
  }

  lemma WalkEnds(records: seq<Record>, passes: seq<byte> -> bool, i: nat, parsed: seq<Report>,
                 visited: seq<nat>, rest: seq<Record>)
    requires AreValid(records) && AreValid(rest) && EncodeAll(rest) == []
    requires Walked(records, passes, i, parsed, visited, rest)
    ensures parsed == EventsOf(records, passes) && visited == Boundaries(records, 0)
  {
    assert rest == [];
  }

  lemma NextRecord(buffer: seq<byte>, i: nat, length: nat, rest: seq<Record>)
    requires i < length <= |buffer| && AreValid(rest) && buffer[i..length] == EncodeAll(rest)
    ensures rest != [] && AreValid(rest[1..])
    ensures i + EVENT_SIZE + |rest[0].field| <= length
    ensures DecodeU32(buffer, i + 4) == rest[0].mask && DecodeU32(buffer, i + 12) == |rest[0].field|
    ensures buffer[i + EVENT_SIZE..i + EVENT_SIZE + |rest[0].field|] == rest[0].field
    ensures buffer[i + EVENT_SIZE + |rest[0].field|..length] == EncodeAll(rest[1..])
  {
    hide DecodeU32, EncodeU32, Encode, Record.Valid;
    var r := rest[0];
    HeaderAt(buffer[..i], r, EncodeAll(rest[1..]) + buffer[length..]);
    assert buffer == buffer[..i] + buffer[i..length] + buffer[length..];
    assert buffer == buffer[..i] + Encode(r) + (EncodeAll(rest[1..]) + buffer[length..]);
    assert buffer[i + |Encode(r)|..length] == buffer[i..length][|Encode(r)|..];
  }

  /** The bytes determine the records: no two lists of valid records are written alike. */
  lemma {:induction false} EncodingIsInjective(a: seq<Record>, b: seq<Record>)
    requires AreValid(a) && AreValid(b) && EncodeAll(a) == EncodeAll(b)
    ensures a == b
    decreases |a|
  {
    if a != [] && b != [] {
      RecordIsFirst(a[0], EncodeAll(a[1..]), b[0], EncodeAll(b[1..]));
      EncodingIsInjective(a[1..], b[1..]);
      assert a == [a[0]] + a[1..] && b == [b[0]] + b[1..];
    }
  }

  lemma RecordIsFirst(a: Record, afterA: seq<byte>, b: Record, afterB: seq<byte>)
    requires a.Valid() && b.Valid() && Encode(a) + afterA == Encode(b) + afterB
    ensures a == b && afterA == afterB
  {
    hide DecodeU32, EncodeU32, Encode, Record.Valid;
    HeaderAt([], a, afterA);
    HeaderAt([], b, afterB);
    var bytes := Encode(a) + afterA;
    assert [] + Encode(a) + afterA == bytes && [] + Encode(b) + afterB == bytes;
    assert bytes[EVENT_SIZE + |a.field|..] == afterA && bytes[EVENT_SIZE + |b.field|..] == afterB;
    WdAndCookie(a, afterA);
    WdAndCookie(b, afterB);
  }

  lemma WdAndCookie(r: Record, after: seq<byte>)
    requires r.Valid()
    ensures DecodeU32(Encode(r) + after, 0) == r.wd && DecodeU32(Encode(r) + after, 8) == r.cookie
  {
    var wd, mask, cookie, len := EncodeU32(r.wd), EncodeU32(r.mask), EncodeU32(r.cookie), EncodeU32(|r.field|);
    U32RoundTrip([], r.wd, mask + cookie + len + r.field + after);
    assert Encode(r) + after == [] + wd + (mask + cookie + len + r.field + after);
    U32RoundTrip(wd + mask, r.cookie, len + r.field + after);
    assert Encode(r) + after == wd + mask + cookie + (len + r.field + after);
  }

  /** A record's bytes: four little-endian numbers of four bytes each, then the field. */
  lemma RecordBytes(r: Record)
    requires r.Valid()
    ensures var b := Encode(r);
      && b[0] as int + 0x100 * b[1] as int + 0x10000 * b[2] as int + 0x1000000 * b[3] as int == r.wd
      && b[4] as int + 0x100 * b[5] as int + 0x10000 * b[6] as int + 0x1000000 * b[7] as int == r.mask
      && b[8] as int + 0x100 * b[9] as int + 0x10000 * b[10] as int + 0x1000000 * b[11] as int == r.cookie
      && b[12] as int + 0x100 * b[13] as int + 0x10000 * b[14] as int + 0x1000000 * b[15] as int == |r.field|
      && b[16..] == r.field
  {
    hide EncodeU32;
    HeaderAt([], r, []);
    WdAndCookie(r, []);
    assert [] + Encode(r) + [] == Encode(r) && Encode(r) + [] == Encode(r);
    assert |Encode(r)| == 16 + |r.field|;
  }
}
