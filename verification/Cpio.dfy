/** The cpio "newc" reader: one iterator over the entries of an archive, and lookup by name. */
module Cpio {
  import opened Bytes
  import opened Wrappers

  datatype CpioError = UnexpectedEof | BadMagic | BadHex | BadUtf8

  datatype Entry = Entry(name: seq<Byte>, mode: nat, data: seq<Byte>)

  datatype Result<T> = Ok(value: T) | Err(error: CpioError)

  /** `070701` */
  const MAGIC: seq<Byte> := [48, 55, 48, 55, 48, 49]

  /** `TRAILER!!!` */
  const TRAILER: seq<Byte> := [84, 82, 65, 73, 76, 69, 82, 33, 33, 33]

  const HDR_LEN := 110

  function HexValue(c: Byte): Option<nat> {
    if 48 <= c <= 57 then Some(c - 48)
    else if 97 <= c <= 102 then Some(c - 87)
    else if 65 <= c <= 70 then Some(c - 55)
    else None
  }

  /** The number written by hexadecimal digits of either case. */
  function Digits(s: seq<Byte>): Option<nat> {
    if s == [] then Some(0)
    else
      var high, low := Digits(s[..|s| - 1]), HexValue(s[|s| - 1]);
      if high.None? || low.None? then None else Some(16 * high.value + low.value)
  }

  /** A number may carry a plus sign. */
  function ParseHex(s: seq<Byte>): Option<nat> {
    if s == [] then None else if s[0] == 43 && |s| > 1 then Digits(s[1..]) else Digits(s)
  }

  /** What one step of the iterator finds; `Trailer` ends the iteration. */
  datatype Step = Found(entry: Entry) | Trailer | Failed(error: CpioError)

  /** The step and the offset it leaves the iterator at. */
  datatype Outcome = Outcome(off: nat, step: Step)

  /** The three header fields that are read. */
  datatype Header = Header(mode: nat, filesize: nat, namesize: nat)

  function ParseHeader(h: seq<Byte>): Result<Header>
    requires |h| == HDR_LEN
  {
    if h[..6] != MAGIC then Err(BadMagic)
    else
      var mode, filesize, namesize := ParseHex(h[14..22]), ParseHex(h[54..62]), ParseHex(h[94..102]);
      if mode.None? || filesize.None? || namesize.None? then Err(BadHex)
      else Ok(Header(mode.value, filesize.value, namesize.value))
  }

  /** The name that `n` bytes from `off` on hold, without its terminator. */
  function ParseName(b: seq<Byte>, off: nat, n: nat): Result<seq<Byte>>
    requires off + n <= |b|
  {
    if n == 0 || b[off + n - 1] != 0 then Err(BadUtf8)
    else if Utf8(b[off..off + n - 1]) then Ok(b[off..off + n - 1])
    else Err(BadUtf8)
  }

  /** The payload after the name, both padded to 4 bytes. */
  function ParseBody(b: seq<Byte>, off: nat, h: Header, name: seq<Byte>): (r: Outcome)
    requires off <= |b|
    ensures off <= r.off <= |b| && (!r.step.Failed? ==> r.off % 4 == 0)
  {
    var data := Pad4(off);
    if data > |b| then Outcome(off, Failed(UnexpectedEof))
    else if data + h.filesize > |b| then Outcome(data, Failed(UnexpectedEof))
    else
      var end := Pad4(data + h.filesize);
      if end > |b| then Outcome(data + h.filesize, Failed(UnexpectedEof))
      else Outcome(end, if name == TRAILER then Trailer else Found(Entry(name, h.mode, b[data..data + h.filesize])))
  }

  /** One step from `off`: an entry or the trailer moves on by at least a header and leaves the offset a
      multiple of 4. */
  function StepAt(b: seq<Byte>, off: nat): (r: Outcome)
    requires off <= |b|
    ensures off <= r.off <= |b| && (!r.step.Failed? ==> off + HDR_LEN <= r.off && r.off % 4 == 0)
  {
    var o1 := off + HDR_LEN;
    if o1 > |b| then Outcome(off, Failed(UnexpectedEof))
    else
      match ParseHeader(b[off..o1])
      case Err(e) => Outcome(o1, Failed(e))
      case Ok(h) =>
        var o2 := o1 + h.namesize;
        if o2 > |b| then Outcome(o1, Failed(UnexpectedEof))
        else
          match ParseName(b, o1, h.namesize)
          case Err(e) => Outcome(o2, Failed(e))
          case Ok(name) => ParseBody(b, o2, h, name)
  }

  datatype Ending = Complete | Broken(error: CpioError)

  /** The entries up to the trailer or the first error. */
  datatype Listing = Listing(entries: seq<Entry>, end: Ending)

  function ListFrom(b: seq<Byte>, off: nat): Listing
    requires off <= |b|
    decreases |b| - off
  {
    var r := StepAt(b, off);
    match r.step
    case Trailer => Listing([], Complete)
    case Failed(e) => Listing([], Broken(e))
    case Found(e) => var rest := ListFrom(b, r.off); Listing([e] + rest.entries, rest.end)
  }

  function FirstNamed(es: seq<Entry>, path: seq<Byte>): (r: Option<nat>)
    ensures r.Some? ==> r.value < |es| && es[r.value].name == path && forall i :: 0 <= i < r.value ==>
        es[i].name != path
    ensures r.None? ==> forall i :: 0 <= i < |es| ==> es[i].name != path
  {
    if es == [] then None
    else if es[0].name == path then Some(0)
    else
      var r := FirstNamed(es[1..], path);
      assert forall i :: 0 < i < |es| ==> es[i] == es[1..][i - 1];
      if r.Some? then Some(r.value + 1) else None
  }

  /** The payload of the first entry called `path`; an error counts only if no such entry precedes it. */
  function Lookup(l: Listing, path: seq<Byte>): Result<Option<seq<Byte>>> {
    match FirstNamed(l.entries, path)
    case Some(i) => Ok(Some(l.entries[i].data))
    case None => if l.end.Complete? then Ok(None) else Err(l.end.error)
  }

  lemma {:induction false} LookupStep(e: Entry, rest: Listing, path: seq<Byte>)
    ensures Lookup(Listing([e] + rest.entries, rest.end), path) == if e.name == path then Ok(Some(e.data))
        else Lookup(rest, path)
  {
    assert ([e] + rest.entries)[1..] == rest.entries;
  }

  class NewcIter {
    const buf: seq<Byte>
    var off: nat
    var done: bool

    ghost predicate Valid()
      reads this
    {
      off <= |buf|
    }

    constructor (buf: seq<Byte>)
      ensures Valid() && this.buf == buf && off == 0 && !done
    {
      this.buf, off, done := buf, 0, false;
    }

    method ReadExact(n: nat) returns (r: Result<seq<Byte>>)
      requires Valid()
      modifies `off
      ensures Valid() && (r.Ok? <==> old(off) + n <= |buf|)
      ensures r.Ok? ==> off == old(off) + n && r.value == buf[old(off)..off]
      ensures r.Err? ==> off == old(off) && r.error == UnexpectedEof
    {
      var start, end := off, off + n;
      if end > |buf| {
        return Err(UnexpectedEof);
      }
      off := end;
      return Ok(buf[start..end]);
    }

    method Align() returns (ok: bool)
      requires Valid()
      modifies `off
      ensures Valid() && (ok <==> Pad4(old(off)) <= |buf|)
      ensures off == if ok then Pad4(old(off)) else old(off)
    {
      var aligned := Pad4(off);
      ok := aligned <= |buf|;
      if ok {
        off := aligned;
      }
    }

    /** The rest of a step, once the name is read. */
    method ReadBody(h: Header, name: seq<Byte>) returns (r: Option<Result<Entry>>)
      requires Valid() && !done
      modifies this
      ensures Valid() && Stepped(ParseBody(buf, old(off), h, name), r)
    {
      var ok := Align();
      if !ok {
        return Some(Err(UnexpectedEof));
      }
      var data := ReadExact(h.filesize);
      if data.Err? {
        return Some(Err(data.error));
      }
      ok := Align();
      if !ok {
        return Some(Err(UnexpectedEof));
      }
      if name == TRAILER {
        done := true;
        return None;
      }
      return Some(Ok(Entry(name, h.mode, data.value)));
    }

    /** The iterator's state and result are those of the outcome `o`. */
    ghost predicate Stepped(o: Outcome, r: Option<Result<Entry>>)
      reads this
    {
      && off == o.off && (done <==> o.step.Trailer?)
      && r == (match o.step case Trailer => None case Failed(e) => Some(Err(e)) case Found(e) => Some(Ok(e)))
    }

    /** Once the trailer was met every further call yields nothing and changes nothing. */
    method Next() returns (r: Option<Result<Entry>>)
      requires Valid()
      modifies this
      ensures Valid()
      ensures old(done) ==> r == None && done && off == old(off)
      ensures !old(done) ==> Stepped(StepAt(buf, old(off)), r)
    {
      if done {
        return None;
      }
      ghost var start := off;
      var hdr := ReadExact(HDR_LEN);
      if hdr.Err? {
        return Some(Err(hdr.error));
      }
      var h := ParseHeader(hdr.value);
      if h.Err? {
        return Some(Err(h.error));
      }
      var name := ReadExact(h.value.namesize);
      if name.Err? {
        return Some(Err(name.error));
      }
      var n := |name.value|;
      if n == 0 || name.value[n - 1] != 0 {
        return Some(Err(BadUtf8));
      }
      var stripped := name.value[..n - 1];
      assert stripped == buf[start + HDR_LEN..start + HDR_LEN + n - 1];
      if !Utf8(stripped) {
        return Some(Err(BadUtf8));
      }
      r := ReadBody(h.value, stripped);
    }
  }

  /** The iterator meets the entries `es`, at the offsets `offs`; the last offset is where it is then. */
  ghost predicate Walked(b: seq<Byte>, offs: seq<nat>, es: seq<Entry>) {
    && |offs| == |es| + 1 && offs[0] == 0 && (forall i {:trigger offs[i]} :: 0 <= i < |offs| ==> offs[i] <= |b|)
    && forall i {:trigger es[i]} :: 0 <= i < |es| ==> StepAt(b, offs[i]) == Outcome(offs[i + 1], Found(es[i]))
  }

  /** None of the entries is called `path`. */
  predicate NoneNamed(es: seq<Entry>, path: seq<Byte>) {
    forall i {:trigger es[i]} :: 0 <= i < |es| ==> es[i].name != path
  }

  lemma {:induction false} WalkedOn(b: seq<Byte>, offs: seq<nat>, es: seq<Entry>, e: Entry, off: nat)
    requires Walked(b, offs, es) && off <= |b| && StepAt(b, offs[|es|]) == Outcome(off, Found(e))
    ensures Walked(b, offs + [off], es + [e])
  {
  }

  /** Terminates on every archive, and returns the payload of the first entry of that name, an error met
      before one, or nothing at the trailer. */
  method FindFile(archive: seq<Byte>, path: seq<Byte>)
    returns (r: Result<Option<seq<Byte>>>, ghost offs: seq<nat>, ghost es: seq<Entry>)
    ensures r == Lookup(ListFrom(archive, 0), path)
    ensures Walked(archive, offs, es) && NoneNamed(es, path)
    ensures match r
            case Ok(Some(data)) =>
              exists e {:trigger Found(e)} ::
                StepAt(archive, offs[|es|]).step == Found(e) && e.name == path && e.data == data
            case Ok(None) => StepAt(archive, offs[|es|]).step == Trailer
            case Err(e) => StepAt(archive, offs[|es|]).step == Failed(e)
  {
    var it := new NewcIter(archive);
    offs, es := [0], [];
    while true
      invariant it.Valid() && it.buf == archive && !it.done
      invariant Lookup(ListFrom(archive, 0), path) == Lookup(ListFrom(archive, it.off), path)
      invariant Walked(archive, offs, es) && NoneNamed(es, path) && it.off == offs[|es|]
      decreases |archive| - it.off
    {
      ghost var off := it.off;
      var e := it.Next();
      if e.None? {
        return Ok(None), offs, es;
      }
      if e.value.Err? {
        return Err(e.value.error), offs, es;
      }
      var entry := e.value.value;
      LookupStep(entry, ListFrom(archive, it.off), path);
      assert StepAt(archive, off).step == Found(entry);
      if entry.name == path {
        return Ok(Some(entry.data)), offs, es;
      }
      WalkedOn(archive, offs, es, entry, it.off);
      offs, es := offs + [it.off], es + [entry];
    }
  }

  // ---------- hexadecimal numbers ----------

  const LOWER: seq<Byte> := [48, 49, 50, 51, 52, 53, 54, 55, 56, 57, 97, 98, 99, 100, 101, 102]
  const UPPER: seq<Byte> := [48, 49, 50, 51, 52, 53, 54, 55, 56, 57, 65, 66, 67, 68, 69, 70]

  /** The character is the digit for `d`, of either case. */
  predicate IsDigit(c: Byte, d: nat) {
    d < 16 && (c == LOWER[d] || c == UPPER[d])
  }

  ghost predicate NoDigit(c: Byte) {
    forall d: nat {:trigger IsDigit(c, d)} :: !IsDigit(c, d)
  }

  /** The characters are the digits `ds`, each of either case. */
  predicate Spelled(s: seq<Byte>, ds: seq<nat>) {
    |s| == |ds| && forall i {:trigger ds[i]} :: 0 <= i < |s| ==> IsDigit(s[i], ds[i])
  }

  function Pow16(n: nat): nat {
    if n == 0 then 1 else 16 * Pow16(n - 1)
  }

  /** The number with these digits, most significant first. */
  function Base16(ds: seq<nat>): nat {
    if ds == [] then 0 else ds[0] * Pow16(|ds| - 1) + Base16(ds[1..])
  }

  lemma {:induction false} HexValueIff(c: Byte, d: nat)
    ensures HexValue(c) == Some(d) <==> IsDigit(c, d)
    ensures HexValue(c) == None <==> NoDigit(c)
  {
    if HexValue(c).Some? {
      assert IsDigit(c, HexValue(c).value);
    }
  }

  lemma {:induction false} Base16Last(ds: seq<nat>, d: nat)
    ensures Base16(ds + [d]) == 16 * Base16(ds) + d
  {
    if ds == [] {
      assert [d][1..] == [];
    } else {
      assert (ds + [d])[1..] == ds[1..] + [d];
      Base16Last(ds[1..], d);
      assert ds[0] * (16 * Pow16(|ds| - 1)) == 16 * (ds[0] * Pow16(|ds| - 1));
    }
  }

  lemma {:induction false} DigitsSpelled(s: seq<Byte>, ds: seq<nat>)
    requires Spelled(s, ds)
    ensures Digits(s) == Some(Base16(ds))
  {
    if s != [] {
      var n := |s| - 1;
      assert forall i {:trigger ds[..n][i]} :: 0 <= i < n ==> ds[..n][i] == ds[i];
      DigitsSpelled(s[..n], ds[..n]);
      HexValueIff(s[n], ds[n]);
      assert ds == ds[..n] + [ds[n]];
      Base16Last(ds[..n], ds[n]);
    }
  }

  /** Every string of digits is read as a number, and nothing else is. */
  lemma {:induction false} DigitsIff(s: seq<Byte>) returns (ds: seq<nat>, i: nat)
    ensures Digits(s).Some? ==> Spelled(s, ds)
    ensures Digits(s).None? ==> i < |s| && NoDigit(s[i])
  {
    ds, i := [], 0;
    if s != [] {
      var n := |s| - 1;
      ds, i := DigitsIff(s[..n]);
      HexValueIff(s[n], 0);
      if Digits(s[..n]).Some? {
        i := n;
        if HexValue(s[n]).Some? {
          HexValueIff(s[n], HexValue(s[n]).value);
          ds := ds + [HexValue(s[n]).value];
        }
      }
    }
  }

  /** A number may carry a plus sign. */
  function Unsigned(s: seq<Byte>): seq<Byte> {
    if |s| > 1 && s[0] == 43 then s[1..] else s
  }

  /** The field holds the number `v`, in digits of either case. */
  ghost predicate Writes(s: seq<Byte>, v: nat) {
    s != [] && exists ds {:trigger Spelled(Unsigned(s), ds)} :: Spelled(Unsigned(s), ds) && Base16(ds) == v
  }

  /** The field is empty or holds a character that is no digit. */
  ghost predicate Unreadable(s: seq<Byte>) {
    s == [] || exists i {:trigger Unsigned(s)[i]} :: 0 <= i < |Unsigned(s)| && NoDigit(Unsigned(s)[i])
  }

  /** A field is read as a number exactly if it holds it, and refused exactly if it holds none. */
  lemma {:induction false} ParseHexIff(s: seq<Byte>, v: nat)
    ensures ParseHex(s) == Some(v) <==> Writes(s, v)
    ensures ParseHex(s) == None <==> Unreadable(s)
  {
    var u := Unsigned(s);
    var ds, i := DigitsIff(u);
    if Digits(u).Some? {
      DigitsSpelled(u, ds);
    }
    forall es {:trigger Spelled(u, es)} | Spelled(u, es)
      ensures Digits(u) == Some(Base16(es))
    {
      DigitsSpelled(u, es);
    }
    if Digits(u).Some? {
      forall j {:trigger u[j]} | 0 <= j < |u|
        ensures !NoDigit(u[j])
      {
        assert IsDigit(u[j], ds[j]);
      }
    }
  }

  /** Digits are read back as their number, whatever the case of each. */
  lemma {:induction false} FieldRoundTrip(s: seq<Byte>, ds: seq<nat>)
    requires Spelled(s, ds) && s != []
    ensures ParseHex(s) == Some(Base16(ds))
  {
    assert IsDigit(s[0], ds[0]);
    DigitsSpelled(s, ds);
  }

  // ---------- stored entries ----------

  /** The spelling of a header: only mode, size and name size are ever read. */
  datatype Fields = Fields(ino: seq<Byte>, mode: seq<Byte>, owner: seq<Byte>, size: seq<Byte>, device: seq<Byte>,
      namesize: seq<Byte>, check: seq<Byte>)

  /** The fields have their width, and the three that are read hold the values of the entry. */
  ghost predicate Spells(h: Fields, e: Entry) {
    && |h.ino| == 8 && |h.mode| == 8 && |h.owner| == 32 && |h.size| == 8 && |h.device| == 32 && |h.namesize| == 8
    && |h.check| == 8
    && Writes(h.mode, e.mode) && Writes(h.size, |e.data|) && Writes(h.namesize, |e.name| + 1)
  }

  function EncodeHeader(h: Fields): seq<Byte> {
    [48, 55, 48, 55, 48, 49] + h.ino + h.mode + h.owner + h.size + h.device + h.namesize + h.check
  }

  /** An entry as it is stored from an offset that is a multiple of 4. */
  ghost function Encode(e: Entry, u: Fields): (w: seq<Byte>)
    requires Spells(u, e)
    ensures |w| == Pad4(HDR_LEN + |e.name| + 1) + Pad4(|e.data|)
  {
    Padded(EncodeHeader(u) + (e.name + [0])) + Padded(e.data)
  }

  lemma {:induction false} HeaderSlices(u: Fields, h: seq<Byte>)
    requires |u.ino| == 8 && |u.mode| == 8 && |u.owner| == 32 && |u.size| == 8 && |u.device| == 32
    requires |u.namesize| == 8 && |u.check| == 8 && h == EncodeHeader(u)
    ensures |h| == HDR_LEN && h[..6] == MAGIC && h[14..22] == u.mode && h[54..62] == u.size && h[94..102] == u.namesize
  {
    var a := [48, 55, 48, 55, 48, 49] + u.ino;
    var c := a + u.mode + u.owner;
    var d := c + u.size + u.device;
    assert h == d + u.namesize + u.check;
    assert h[94..102] == u.namesize;
    assert h[..54] == c && h[54..62] == u.size;
    assert h[..14] == a && h[14..22] == u.mode;
    assert h[..6] == a[..6] == MAGIC;
  }

  lemma {:induction false} HeaderReads(h: seq<Byte>, mode: nat, size: nat, namesize: nat)
    requires |h| == HDR_LEN && h[..6] == MAGIC && ParseHex(h[14..22]) == Some(mode) && ParseHex(h[54..62]) == Some(size)
    requires ParseHex(h[94..102]) == Some(namesize)
    ensures ParseHeader(h) == Ok(Header(mode, size, namesize))
  {
  }

  lemma {:induction false} HeaderRoundTrip(e: Entry, u: Fields)
    requires Spells(u, e)
    ensures |EncodeHeader(u)| == HDR_LEN && ParseHeader(EncodeHeader(u)) == Ok(Header(e.mode, |e.data|, |e.name| + 1))
  {
    var h := EncodeHeader(u);
    HeaderSlices(u, h);
    ParseHexIff(u.mode, e.mode);
    ParseHexIff(u.size, |e.data|);
    ParseHexIff(u.namesize, |e.name| + 1);
    HeaderReads(h, e.mode, |e.data|, |e.name| + 1);
  }

  /** The header, the terminated name and the payload of `e` lie in the archive from `off` up to `end`, each up
      to a multiple of 4, whatever fills the gaps. */
  ghost predicate HoldsParts(b: seq<Byte>, off: nat, header: seq<Byte>, e: Entry, end: nat) {
    var data := Pad4(off + |header| + |e.name| + 1);
    && At(b, off, header + (e.name + [0])) && At(b, data, e.data) && end == Pad4(data + |e.data|) <= |b|
  }

  /** The entry `e` is stored there, under a header spelled by `u`. */
  ghost predicate HoldsEntry(b: seq<Byte>, off: nat, e: Entry, u: Fields, end: nat) {
    Spells(u, e) && HoldsParts(b, off, EncodeHeader(u), e, end)
  }

  lemma {:induction false} HeaderParts(b: seq<Byte>, off: nat, header: seq<Byte>, name: seq<Byte>, o2: nat)
    requires |header| == 110 && At(b, off, header + (name + [0])) && o2 == off + 110 + |name| + 1
    ensures o2 <= |b| && b[off..off + 110] == header && b[off + 110..o2 - 1] == name && b[o2 - 1] == 0
  {
    AtSplit(b, off, header, name + [0]);
    AtSplit(b, off + 110, name, [0]);
    AtIndex(b, o2 - 1, [0], 0);
  }

  lemma {:induction false} NameIs(b: seq<Byte>, off: nat, name: seq<Byte>)
    requires off + |name| < |b| && b[off..off + |name|] == name && b[off + |name|] == 0 && Utf8(name)
    ensures ParseName(b, off, |name| + 1) == Ok(name)
  {
  }

  lemma {:induction false} StepIs(b: seq<Byte>, off: nat, h: Header, name: seq<Byte>, o2: nat)
    requires off + 110 <= o2 <= |b| && o2 == off + 110 + h.namesize
    requires ParseHeader(b[off..off + 110]) == Ok(h) && ParseName(b, off + 110, h.namesize) == Ok(name)
    ensures StepAt(b, off) == ParseBody(b, o2, h, name)
  {
  }

  /** The name that ends an archive. */
  predicate IsTrailer(name: seq<Byte>) { name == [84, 82, 65, 73, 76, 69, 82, 33, 33, 33] }

  lemma {:induction false} BodyIs(b: seq<Byte>, off: nat, h: Header, e: Entry, data: nat, end: nat)
    requires data == Pad4(off) && At(b, data, e.data) && h.filesize == |e.data| && h.mode == e.mode
    requires end == Pad4(data + |e.data|) <= |b| && off <= |b|
    ensures ParseBody(b, off, h, e.name) == Outcome(end, if IsTrailer(e.name) then Trailer else Found(e))
  {
  }

  lemma {:induction false} FrontIs(b: seq<Byte>, off: nat, header: seq<Byte>, h: Header, name: seq<Byte>, o2: nat)
    requires |header| == 110 && ParseHeader(header) == Ok(h) && h.namesize == |name| + 1 && Utf8(name)
    requires At(b, off, header + (name + [0])) && o2 == off + 110 + |name| + 1
    ensures o2 <= |b| && StepAt(b, off) == ParseBody(b, o2, h, name)
  {
    HeaderParts(b, off, header, name, o2);
    NameIs(b, off + 110, name);
    StepIs(b, off, h, name, o2);
  }

  lemma {:induction false} PartsOf(b: seq<Byte>, off: nat, header: seq<Byte>, e: Entry, o2: nat, end: nat)
    returns (data: nat)
    requires |header| == 110 && HoldsParts(b, off, header, e, end) && o2 == off + 110 + |e.name| + 1
    ensures data == Pad4(o2) && At(b, data, e.data) && end == Pad4(data + |e.data|) <= |b|
  {
    data := Pad4(o2);
    assert off + |header| + |e.name| + 1 == o2;
  }

  lemma {:induction false} PartsStep(b: seq<Byte>, off: nat, header: seq<Byte>, h: Header, e: Entry, end: nat)
    requires |header| == 110 && ParseHeader(header) == Ok(h) && h == Header(e.mode, |e.data|, |e.name| + 1)
    requires HoldsParts(b, off, header, e, end) && Utf8(e.name)
    ensures off <= |b| && StepAt(b, off) == Outcome(end, if IsTrailer(e.name) then Trailer else Found(e))
  {
    var o2 := off + 110 + |e.name| + 1;
    var data := PartsOf(b, off, header, e, o2, end);
    FrontIs(b, off, header, h, e.name, o2);
    BodyIs(b, o2, h, e, data, end);
  }

  /** One step over a stored entry yields it and stops behind it. */
  lemma {:induction false} StepRoundTrip(b: seq<Byte>, off: nat, e: Entry, u: Fields, end: nat)
    requires HoldsEntry(b, off, e, u, end) && Utf8(e.name)
    ensures off <= |b| && StepAt(b, off) == Outcome(end, if IsTrailer(e.name) then Trailer else Found(e))
  {
    HeaderRoundTrip(e, u);
    PartsStep(b, off, EncodeHeader(u), Header(e.mode, |e.data|, |e.name| + 1), e, end);
  }

  /** The fields of 110 bytes. */
  function FieldsOf(w: seq<Byte>): (u: Fields)
    requires |w| == 110
    ensures w[..6] == [48, 55, 48, 55, 48, 49] ==> EncodeHeader(u) == w
  {
    Fields(w[6..14], w[14..22], w[22..54], w[54..62], w[62..94], w[94..102], w[102..110])
  }

  /** A header that is accepted spells its numbers. */
  lemma {:induction false} HeaderHolds(w: seq<Byte>, h: Header, e: Entry)
    requires |w| == 110 && ParseHeader(w) == Ok(h) && h == Header(e.mode, |e.data|, |e.name| + 1)
    ensures EncodeHeader(FieldsOf(w)) == w && Spells(FieldsOf(w), e)
  {
    ParseHexIff(w[14..22], h.mode);
    ParseHexIff(w[54..62], h.filesize);
    ParseHexIff(w[94..102], h.namesize);
  }

  lemma {:induction false} FrontHolds(b: seq<Byte>, off: nat, w: seq<Byte>, name: seq<Byte>, o2: nat, e: Entry,
      data: nat, end: nat)
    requires off + 110 <= o2 - 1 < |b| && w == b[off..off + 110] && name == b[off + 110..o2 - 1] && b[o2 - 1] == 0
    requires e.name == name && data == Pad4(o2) && data + |e.data| <= |b| && e.data == b[data..data + |e.data|]
    requires end == Pad4(data + |e.data|) <= |b|
    ensures HoldsParts(b, off, w, e, end)
  {
    assert b[off..o2] == w + (name + [0]);
  }

  lemma {:induction false} BodyHolds(b: seq<Byte>, off: nat, h: Header, name: seq<Byte>) returns (data: nat, end: nat)
    requires off <= |b| && !ParseBody(b, off, h, name).step.Failed?
    ensures data == Pad4(off) && data + h.filesize <= |b| && end == Pad4(data + h.filesize) <= |b|
    ensures ParseBody(b, off, h, name)
         == Outcome(end, if IsTrailer(name) then Trailer else Found(Entry(name, h.mode, b[data..data + h.filesize])))
  {
    data := Pad4(off);
    end := Pad4(data + h.filesize);
  }

  lemma {:induction false} StepHeader(b: seq<Byte>, off: nat) returns (w: seq<Byte>, h: Header)
    requires off <= |b| && !StepAt(b, off).step.Failed?
    ensures off + 110 <= |b| && w == b[off..off + 110] && ParseHeader(w) == Ok(h)
  {
    w := b[off..off + 110];
    h := ParseHeader(w).value;
  }

  lemma {:induction false} StepName(b: seq<Byte>, off: nat, w: seq<Byte>, h: Header)
    returns (name: seq<Byte>, o2: nat)
    requires off + 110 <= |b| && w == b[off..off + 110] && ParseHeader(w) == Ok(h) && !StepAt(b, off).step.Failed?
    ensures o2 == off + 110 + h.namesize <= |b| && ParseName(b, off + 110, h.namesize) == Ok(name)
    ensures StepAt(b, off) == ParseBody(b, o2, h, name)
  {
    o2 := off + 110 + h.namesize;
    name := ParseName(b, off + 110, h.namesize).value;
  }

  lemma {:induction false} NameHolds(b: seq<Byte>, off: nat, n: nat, name: seq<Byte>)
    requires off + n <= |b| && ParseName(b, off, n) == Ok(name)
    ensures n == |name| + 1 && name == b[off..off + n - 1] && b[off + n - 1] == 0 && Utf8(name)
  {
  }

  lemma {:induction false} StepParts(b: seq<Byte>, off: nat) returns (w: seq<Byte>, h: Header, e: Entry, end: nat)
    requires off <= |b| && !StepAt(b, off).step.Failed?
    ensures |w| == 110 && ParseHeader(w) == Ok(h) && h == Header(e.mode, |e.data|, |e.name| + 1)
    ensures HoldsParts(b, off, w, e, end)
    ensures off + 111 + |e.name| <= |b| && ParseName(b, off + 110, |e.name| + 1) == Ok(e.name)
    ensures StepAt(b, off) == Outcome(end, if IsTrailer(e.name) then Trailer else Found(e))
  {
    var name, o2, data;
    w, h := StepHeader(b, off);
    name, o2 := StepName(b, off, w, h);
    NameHolds(b, off + 110, h.namesize, name);
    data, end := BodyHolds(b, o2, h, name);
    e := Entry(name, h.mode, b[data..data + h.filesize]);
    FrontHolds(b, off, w, name, o2, e, data, end);
  }

  /** Whatever a step yields is stored there. */
  lemma {:induction false} StepHolds(b: seq<Byte>, off: nat) returns (e: Entry, u: Fields)
    requires off <= |b| && !StepAt(b, off).step.Failed?
    ensures HoldsEntry(b, off, e, u, StepAt(b, off).off) && Utf8(e.name)
    ensures StepAt(b, off).step == if IsTrailer(e.name) then Trailer else Found(e)
  {
    var w, h, end;
    w, h, e, end := StepParts(b, off);
    NameHolds(b, off + 110, |e.name| + 1, e.name);
    u := FieldsOf(w);
    HeaderHolds(w, h, e);
  }

  /** A complete header lies at `off`. */
  ghost predicate HeaderAt(b: seq<Byte>, off: nat) { off + 110 <= |b| && b[off..off + 6] == [48, 55, 48, 55, 48, 49] }

  /** One of the three numbers of the header cannot be read. */
  ghost predicate BadNumber(b: seq<Byte>, off: nat)
    requires HeaderAt(b, off)
  {
    Unreadable(b[off + 14..off + 22]) || Unreadable(b[off + 54..off + 62]) || Unreadable(b[off + 94..off + 102])
  }

  /** The `n` bytes behind the header are there and are no terminated name. */
  predicate BadName(b: seq<Byte>, off: nat, n: nat) {
    off + 110 + n <= |b| && (n == 0 || b[off + 110 + n - 1] != 0 || !Utf8(b[off + 110..off + 110 + n - 1]))
  }

  lemma {:induction false} FailsBy(b: seq<Byte>, off: nat, w: seq<Byte>, h: Result<Header>)
    requires off + 110 <= |b| && w == b[off..off + 110] && h == ParseHeader(w)
    ensures h.Err? ==> StepAt(b, off).step == Failed(h.error)
    ensures h.Ok? ==> (StepAt(b, off).step == Failed(BadUtf8) <==> BadName(b, off, h.value.namesize))
    ensures h.Ok? ==> StepAt(b, off).step != Failed(BadMagic) && StepAt(b, off).step != Failed(BadHex)
  {
  }

  /** Which error a step that yields nothing reports: the end of the archive, if none of these. */
  lemma {:induction false} StepFails(b: seq<Byte>, off: nat)
    requires off <= |b|
    ensures StepAt(b, off).step == Failed(BadMagic) <==> off + 110 <= |b| && !HeaderAt(b, off)
    ensures StepAt(b, off).step == Failed(BadHex) <==> HeaderAt(b, off) && BadNumber(b, off)
    ensures StepAt(b, off).step == Failed(BadUtf8) <==>
            && HeaderAt(b, off) && !BadNumber(b, off)
            && exists n: nat {:trigger BadName(b, off, n)} :: Writes(b[off + 94..off + 102], n) && BadName(b, off, n)
  {
    if off + 110 <= |b| {
      var w := b[off..off + 110];
      FailsBy(b, off, w, ParseHeader(w));
      HeaderFails(b, off, w);
    }
  }

  lemma {:induction false} HeaderFails(b: seq<Byte>, off: nat, w: seq<Byte>)
    requires off + 110 <= |b| && w == b[off..off + 110]
    ensures ParseHeader(w) == Err(BadMagic) <==> !HeaderAt(b, off)
    ensures ParseHeader(w) == Err(BadHex) <==> HeaderAt(b, off) && BadNumber(b, off)
    ensures ParseHeader(w).Ok? <==> HeaderAt(b, off) && !BadNumber(b, off)
    ensures ParseHeader(w).Ok? ==>
              forall n: nat {:trigger Writes(b[off + 94..off + 102], n)} ::
                Writes(b[off + 94..off + 102], n) <==> n == ParseHeader(w).value.namesize
  {
    Part(b, off, 110, 0, 6);
    Part(b, off, 110, 14, 22);
    Part(b, off, 110, 54, 62);
    Part(b, off, 110, 94, 102);
    assert w[..6] == w[0..6];
    FieldsRead(w);
  }

  lemma {:induction false} Part(b: seq<Byte>, off: nat, n: nat, i: nat, j: nat)
    requires off + n <= |b| && i <= j <= n
    ensures b[off..off + n][i..j] == b[off + i..off + j]
  {
    assert forall k {:trigger b[off + i..off + j][k]} :: 0 <= k < j - i ==>
      b[off..off + n][i..j][k] == b[off..off + n][i + k] == b[off + i..off + j][k];
  }

  lemma {:induction false} FieldsRead(w: seq<Byte>)
    requires |w| == 110
    ensures ParseHex(w[14..22]).None? <==> Unreadable(w[14..22])
    ensures ParseHex(w[54..62]).None? <==> Unreadable(w[54..62])
    ensures ParseHex(w[94..102]).None? <==> Unreadable(w[94..102])
    ensures forall n: nat {:trigger Writes(w[94..102], n)} :: Writes(w[94..102], n) <==> ParseHex(w[94..102]) == Some(n)
  {
    ParseHexIff(w[14..22], 0);
    ParseHexIff(w[54..62], 0);
    ParseHexIff(w[94..102], 0);
    forall n: nat {:trigger Writes(w[94..102], n)}
      ensures Writes(w[94..102], n) <==> ParseHex(w[94..102]) == Some(n)
    {
      ParseHexIff(w[94..102], n);
    }
  }

  /** An entry together with the spelling of its header. */
  datatype Stored = Stored(entry: Entry, fields: Fields)

  ghost predicate StoredOk(s: Stored) { Utf8(s.entry.name) && Spells(s.fields, s.entry) }

  /** Entries that can be stored, none of them called like the trailer. */
  ghost predicate Storable(es: List<Stored>) {
    match es
    case Nil => true
    case Cons(e, rest) => StoredOk(e) && !IsTrailer(e.entry.name) && Storable(rest)
  }

  function Entries(es: List<Stored>): seq<Entry> {
    match es
    case Nil => []
    case Cons(e, rest) => [e.entry] + Entries(rest)
  }

  /** An archive: the entries, the trailer and anything behind it. */
  ghost function Archive(es: List<Stored>, trailer: Stored, behind: seq<Byte>): seq<Byte>
    requires Storable(es) && StoredOk(trailer)
  {
    match es
    case Nil => Encode(trailer.entry, trailer.fields) + behind
    case Cons(e, rest) => Encode(e.entry, e.fields) + Archive(rest, trailer, behind)
  }

  lemma {:induction false} PadFrom(off: nat, n: nat)
    requires off % 4 == 0
    ensures Pad4(off + n) == off + Pad4(n)
  {
  }

  lemma {:induction false} JoinParts(b: seq<Byte>, off: nat, header: seq<Byte>, e: Entry, n: nat, data: nat, end: nat)
    requires n == |header| + |e.name| + 1 && data == Pad4(off + n) && end == Pad4(data + |e.data|)
    requires At(b, off, header + (e.name + [0])) && At(b, data, e.data) && end <= |b|
    ensures HoldsParts(b, off, header, e, end)
  {
    assert off + |header| + |e.name| + 1 == off + n;
  }

  /** An encoded entry lies where it should, and the next one can follow. */
  lemma {:induction false} EncodedHolds(b: seq<Byte>, off: nat, header: seq<Byte>, e: Entry, rest: seq<Byte>, end: nat)
    requires off % 4 == 0 && At(b, off, Padded(header + (e.name + [0])) + Padded(e.data) + rest)
    requires end == off + Pad4(|header| + |e.name| + 1) + Pad4(|e.data|)
    ensures HoldsParts(b, off, header, e, end) && end % 4 == 0 && At(b, end, rest)
  {
    var front, n := header + (e.name + [0]), |header| + |e.name| + 1;
    PaddedParts(b, off, front, e.data, rest);
    PadsTo(off, n, |e.data|, off + Pad4(n), end);
    JoinParts(b, off, header, e, n, off + Pad4(n), end);
  }

  lemma {:induction false} PadsTo(off: nat, n: nat, len: nat, data: nat, end: nat)
    requires off % 4 == 0 && data == off + Pad4(n) && end == data + Pad4(len)
    ensures data == Pad4(off + n) && end == Pad4(data + len) && end % 4 == 0
  {
    SumOfFours(off, Pad4(n), Pad4(len));
    PadFrom(off, n);
    PadFrom(data, len);
  }

  lemma {:induction false} PaddedParts(b: seq<Byte>, off: nat, u: seq<Byte>, v: seq<Byte>, rest: seq<Byte>)
    requires At(b, off, Padded(u) + Padded(v) + rest)
    ensures At(b, off, u) && At(b, off + Pad4(|u|), v) && At(b, off + Pad4(|u|) + Pad4(|v|), rest)
  {
    AtSplit(b, off, Padded(u) + Padded(v), rest);
    AtSplit(b, off, Padded(u), Padded(v));
    PaddedAt(b, off, u);
    PaddedAt(b, off + Pad4(|u|), v);
  }

  lemma {:induction false} EncodedStep(b: seq<Byte>, off: nat, s: Stored, rest: seq<Byte>) returns (end: nat)
    requires StoredOk(s) && off % 4 == 0 && At(b, off, Encode(s.entry, s.fields) + rest)
    ensures off <= |b| && end <= |b| && end % 4 == 0 && At(b, end, rest)
    ensures StepAt(b, off) == Outcome(end, if IsTrailer(s.entry.name) then Trailer else Found(s.entry))
  {
    var e, header := s.entry, EncodeHeader(s.fields);
    HeaderRoundTrip(e, s.fields);
    end := off + Pad4(|header| + |e.name| + 1) + Pad4(|e.data|);
    EncodedHolds(b, off, header, e, rest, end);
    PartsStep(b, off, header, Header(e.mode, |e.data|, |e.name| + 1), e, end);
  }

  lemma {:induction false} SumOfFours(a: nat, b: nat, c: nat)
    requires a % 4 == 0 && b % 4 == 0 && c % 4 == 0
    ensures (a + (b + c)) % 4 == 0 && (a + b) % 4 == 0
  {
  }

  /** Stepping from `off` on meets the entries `es` and then the trailer. */
  predicate Meets(b: seq<Byte>, off: nat, es: List<Stored>)
    requires off <= |b|
    decreases es
  {
    var r := StepAt(b, off);
    match es
    case Nil => r.step == Trailer
    case Cons(e, rest) => r.step == Found(e.entry) && Meets(b, r.off, rest)
  }

  lemma {:induction false} MeetsLists(b: seq<Byte>, off: nat, es: List<Stored>)
    requires off <= |b| && Meets(b, off, es)
    ensures ListFrom(b, off) == Listing(Entries(es), Complete)
    decreases es
  {
    match es
    case Nil =>
    case Cons(e, rest) => MeetsLists(b, StepAt(b, off).off, rest);
  }

  lemma {:induction false} MeetsMore(b: seq<Byte>, off: nat, e: Stored, rest: List<Stored>, next: nat)
    requires off <= |b| && next <= |b| && StepAt(b, off) == Outcome(next, Found(e.entry)) && Meets(b, next, rest)
    ensures Meets(b, off, Cons(e, rest))
  {
  }

  lemma {:induction false} ArchiveMeets(b: seq<Byte>, off: nat, es: List<Stored>, trailer: Stored, behind: seq<Byte>)
    requires Storable(es) && StoredOk(trailer) && IsTrailer(trailer.entry.name)
    requires off % 4 == 0 && At(b, off, Archive(es, trailer, behind))
    ensures Meets(b, off, es)
    decreases es
  {
    match es
    case Nil =>
      var end := EncodedStep(b, off, trailer, behind);
    case Cons(e, rest) =>
      var next := EncodedStep(b, off, e, Archive(rest, trailer, behind));
      ArchiveMeets(b, next, rest, trailer, behind);
      MeetsMore(b, off, e, rest, next);
  }

  /** Reading an archive back yields exactly its entries in order and ends cleanly. */
  lemma {:induction false} ArchiveRoundTrip(es: List<Stored>, trailer: Stored, behind: seq<Byte>)
    requires Storable(es) && StoredOk(trailer) && IsTrailer(trailer.entry.name)
    ensures ListFrom(Archive(es, trailer, behind), 0) == Listing(Entries(es), Complete)
  {
    var b := Archive(es, trailer, behind);
    assert b[0..|b|] == b;
    ArchiveMeets(b, 0, es, trailer, behind);
    MeetsLists(b, 0, es);
  }
}
