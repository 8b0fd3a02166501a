/**
 * The hotspot atlas file: a MAT chunk (the tag "MAT", a '>I' group count,
 * and per group a '>I' name count and per name a '>I' size followed by the
 * name's bytes) and a HOT chunk (the tag "HOT", a '>I' hotspot count and
 * the hotspots' bytes). Reading is modelled as loops over a byte buffer
 * that thread an offset; writing as the byte string the file receives.
 */
module HotFile {
  import opened Wrappers
  import opened BigEndian
  import opened Utf8
  import opened Bounds
  import opened Hotspots
  import opened SeqFacts

  /** The exceptions the format code raises. */
  datatype Fault =
    | StructError   // struct.unpack_from past the end, or a value struct.pack cannot hold
    | DecodeError   // UnicodeDecodeError from bytes.decode('utf-8')
    | WrongChunk    // the RuntimeError of a chunk whose tag is not the expected one
    | CountMismatch // the RuntimeError of write_hot_file for lists of different lengths

  const MatTag: seq<Byte> := [77, 65, 84]
  const HotTag: seq<Byte> := [72, 79, 84]

  /** The tags are the UTF-8 encodings of "MAT" and "HOT". */
  lemma TagsEncode()
    ensures Encode("MAT") == MatTag && Encode("HOT") == HotTag
  {
  }

  /** struct.unpack_from('>3s', buf, off)[0].decode('utf-8'). */
  function ReadTag(buf: seq<Byte>, off: nat): (r: Result<string, Fault>)
    ensures r == Err(StructError) <==> off + 3 > |buf|
    ensures r.Err? ==> r.error == StructError || r.error == DecodeError
    ensures r.Ok? ==> 1 <= |r.value| <= 3
  {
    if off + 3 > |buf| then Err(StructError)
    else match DecodeAt(buf, off, off + 3)
      case None => Err(DecodeError)
      case Some(t) =>
        EncodeDecodeAt(buf, off, off + 3);
        EncodeLength(t);
        Ok(t)
  }

  /** A tag reads as `name` exactly when its three bytes are `name`'s encoding. */
  lemma ReadTagExact(buf: seq<Byte>, off: nat, name: string)
    requires off + 3 <= |buf|
    ensures ReadTag(buf, off) == Ok(name) <==> At(buf, off, Encode(name)) && |Encode(name)| == 3
  {
    if ReadTag(buf, off) == Ok(name) {
      EncodeDecodeAt(buf, off, off + 3);
    }
    if At(buf, off, Encode(name)) && |Encode(name)| == 3 {
      DecodeEncodeAt(buf, off, name);
    }
  }

  // ---------------------------------------------------------------- reading

  /** One name: its '>I' size, then that many bytes decoded as UTF-8. */
  function ReadString(buf: seq<Byte>, off: nat): (r: Result<(string, nat), Fault>)
    ensures off + 4 > |buf| ==> r == Err(StructError)
    ensures r.Err? ==> r.error == StructError || r.error == DecodeError
    ensures r.Ok? ==> UnpackU32(buf, off).Some? && r.value.1 == off + 4 + UnpackU32(buf, off).value <= |buf|
  {
    match UnpackU32(buf, off)
    case None => Err(StructError)
    case Some(size) =>
      if off + 4 + size > |buf| then Err(StructError)
      else match DecodeAt(buf, off + 4, off + 4 + size)
        case None => Err(DecodeError)
        case Some(s) => Ok((s, off + 4 + size))
  }

  /** The first `k` names from `off`, read one after another; the first failure is the result. */
  function ReadStrings(buf: seq<Byte>, off: nat, k: nat): Result<(seq<string>, nat), Fault>
    decreases k, 1
  {
    if k == 0 then Ok(([], off)) else ReadStringsMore(buf, off, k)
  }

  /** The first `k - 1` names, then one more. */
  function ReadStringsMore(buf: seq<Byte>, off: nat, k: nat): Result<(seq<string>, nat), Fault>
    requires k > 0
    decreases k, 0
  {
    match ReadStrings(buf, off, k - 1)
    case Err(e) => Err(e)
    case Ok((xs, o)) =>
      match ReadString(buf, o)
      case Err(e) => Err(e)
      case Ok((s, o2)) => Ok((xs + [s], o2))
  }

  /** One material group: a '>I' count, then the names. */
  function ReadGroup(buf: seq<Byte>, off: nat): (r: Result<(seq<string>, nat), Fault>)
    ensures off + 4 > |buf| ==> r == Err(StructError)
    ensures r.Ok? ==> UnpackU32(buf, off) == Some(|r.value.0|)
  {
    match UnpackU32(buf, off)
    case None => Err(StructError)
    case Some(k) =>
      var r := ReadStrings(buf, off + 4, k);
      if r.Ok? then StringsAdvance(buf, off + 4, k); r else r
  }

  /** The first `k` groups from `off`. */
  function ReadGroups(buf: seq<Byte>, off: nat, k: nat): Result<(seq<seq<string>>, nat), Fault>
    decreases k, 1
  {
    if k == 0 then Ok(([], off)) else ReadGroupsMore(buf, off, k)
  }

  /** The first `k - 1` groups, then one more. */
  function ReadGroupsMore(buf: seq<Byte>, off: nat, k: nat): Result<(seq<seq<string>>, nat), Fault>
    requires k > 0
    decreases k, 0
  {
    match ReadGroups(buf, off, k - 1)
    case Err(e) => Err(e)
    case Ok((gs, o)) =>
      match ReadGroup(buf, o)
      case Err(e) => Err(e)
      case Ok((g, o2)) => Ok((gs + [g], o2))
  }

  /** load_mat_subchunk: the tag must read "MAT", then the group count and the groups. */
  function MatSpec(buf: seq<Byte>, off: nat): Result<(seq<seq<string>>, nat), Fault>
  {
    match ReadTag(buf, off)
    case Err(e) => Err(e)
    case Ok(t) =>
      if t != "MAT" then Err(WrongChunk)
      else match UnpackU32(buf, off + 3)
        case None => Err(StructError)
        case Some(n) => ReadGroups(buf, off + 7, n)
  }

  /** Once reading the names fails, reading more of them fails the same way. */
  lemma {:induction false} StringsErr(buf: seq<Byte>, off: nat, j: nat, k: nat)
    requires j <= k && ReadStrings(buf, off, j).Err?
    ensures ReadStrings(buf, off, k) == ReadStrings(buf, off, j)
    decreases k
  {
    if j < k {
      StringsErr(buf, off, j, k - 1);
    }
  }

  lemma {:induction false} GroupsErr(buf: seq<Byte>, off: nat, j: nat, k: nat)
    requires j <= k && ReadGroups(buf, off, j).Err?
    ensures ReadGroups(buf, off, k) == ReadGroups(buf, off, j)
    decreases k
  {
    if j < k {
      GroupsErr(buf, off, j, k - 1);
    }
  }

  /** A failure inside group `i` is the failure of the whole chunk. */
  lemma GroupFails(buf: seq<Byte>, off: nat, i: nat, n: nat, gs: seq<seq<string>>, start: nat, e: Fault)
    requires i < n && ReadGroups(buf, off, i) == Ok((gs, start)) && ReadGroup(buf, start) == Err(e)
    ensures ReadGroups(buf, off, n) == Err(e)
  {
    GroupsErr(buf, off, i + 1, n);
  }

  /** load_mat_subchunk, with its two nested loops over groups and names. */
  method LoadMatSubchunk(buf: seq<Byte>, off: nat) returns (r: Result<(seq<seq<string>>, nat), Fault>)
    ensures r == MatSpec(buf, off)
  {
    var tag := ReadTag(buf, off);
    if tag.Err? {
      return Err(tag.error);
    }
    if tag.value != "MAT" {
      return Err(WrongChunk);
    }
    var offset := off + 3;
    var groupCount := UnpackU32(buf, offset);
    if groupCount.None? {
      return Err(StructError);
    }
    var n := groupCount.value;
    offset := offset + 4;
    var groups: seq<seq<string>> := [];
    for i := 0 to n
      invariant ReadGroups(buf, off + 7, i) == Ok((groups, offset))
    {
      var start := offset;
      var strCount := UnpackU32(buf, offset);
      if strCount.None? {
        GroupFails(buf, off + 7, i, n, groups, start, StructError);
        return Err(StructError);
      }
      var strs := LoadStrings(buf, offset + 4, strCount.value);
      if strs.Err? {
        GroupFails(buf, off + 7, i, n, groups, start, strs.error);
        return Err(strs.error);
      }
      groups := groups + [strs.value.0];
      offset := strs.value.1;
    }
    return Ok((groups, offset));
  }

  /** The inner loop of load_mat_subchunk: `k` names, each a '>I' size and that many bytes of UTF-8. */
  method LoadStrings(buf: seq<Byte>, off: nat, k: nat) returns (r: Result<(seq<string>, nat), Fault>)
    ensures r == ReadStrings(buf, off, k)
  {
    var offset := off;
    var strs: seq<string> := [];
    for j := 0 to k
      invariant ReadStrings(buf, off, j) == Ok((strs, offset))
    {
      var size := UnpackU32(buf, offset);
      if size.None? || offset + 4 + size.value > |buf| {
        StringsErr(buf, off, j + 1, k);
        return Err(StructError);
      }
      var s := DecodeAt(buf, offset + 4, offset + 4 + size.value);
      if s.None? {
        StringsErr(buf, off, j + 1, k);
        return Err(DecodeError);
      }
      strs := strs + [s.value];
      offset := offset + 4 + size.value;
    }
    return Ok((strs, offset));
  }

  /** The bytes a list of names takes: a size field and, per name, as many bytes as the field says. */
  function StringsSize(xs: seq<string>, sizing: Sizing): nat
  {
    if xs == [] then 0 else StringsSize(xs[..|xs| - 1], sizing) + 4 + SizeOf(xs[|xs| - 1], sizing)
  }

  /** The bytes a list of groups takes: a count field and the names of each. */
  function GroupsSize(gs: seq<seq<string>>, sizing: Sizing): nat
  {
    if gs == [] then 0 else GroupsSize(gs[..|gs| - 1], sizing) + 4 + StringsSize(gs[|gs| - 1], sizing)
  }

  /** The bytes a list of hotspots takes: a count field and four shorts per rectangle. */
  function HotspotsSize(hs: seq<Hotspot>): nat
  {
    if hs == [] then 0 else HotspotsSize(hs[..|hs| - 1]) + 4 + 8 * |hs[|hs| - 1].data|
  }

  lemma {:induction false} StringsAdvance(buf: seq<Byte>, off: nat, k: nat)
    requires ReadStrings(buf, off, k).Ok?
    ensures var (xs, o) := ReadStrings(buf, off, k).value; |xs| == k && o == off + StringsSize(xs, ByteCount)
  {
    if k > 0 {
      StringsAdvance(buf, off, k - 1);
      var (xs, o) := ReadStrings(buf, off, k - 1).value;
      var size := UnpackU32(buf, o).value;
      EncodeDecodeAt(buf, o + 4, o + 4 + size);
      var ys := ReadStrings(buf, off, k).value.0;
      assert ys[..|ys| - 1] == xs;
    }
  }

  lemma {:induction false} GroupsAdvance(buf: seq<Byte>, off: nat, k: nat)
    requires ReadGroups(buf, off, k).Ok?
    ensures var (gs, o) := ReadGroups(buf, off, k).value; |gs| == k && o == off + GroupsSize(gs, ByteCount)
  {
    if k > 0 {
      GroupsAdvance(buf, off, k - 1);
      var (gs, o) := ReadGroups(buf, off, k - 1).value;
      StringsAdvance(buf, o + 4, UnpackU32(buf, o).value);
      var hs := ReadGroups(buf, off, k).value.0;
      assert hs[..|hs| - 1] == gs;
    }
  }

  /**
   * load_mat_subchunk succeeds only on a chunk whose first three bytes are
   * "MAT"; it returns as many groups as the count says, and the offset
   * after 3 + 4 bytes of header and, per group, 4 bytes of count and per
   * name 4 bytes of size and the name's bytes.
   */
  lemma MatAdvance(buf: seq<Byte>, off: nat)
    requires MatSpec(buf, off).Ok?
    ensures off + 7 <= |buf| && At(buf, off, MatTag)
    ensures var (gs, o) := MatSpec(buf, off).value;
      && |gs| == UnpackU32(buf, off + 3).value
      && o == off + 3 + 4 + GroupsSize(gs, ByteCount)
  {
    ReadTagExact(buf, off, "MAT");
    TagsEncode();
    GroupsAdvance(buf, off + 7, UnpackU32(buf, off + 3).value);
  }

  /** The first `k` hotspots from `off`. */
  function ReadHotspots(buf: seq<Byte>, off: nat, k: nat): (r: Result<(seq<Hotspot>, nat), Fault>)
    ensures r.Ok? ==> |r.value.0| == k
    decreases k, 1
  {
    if k == 0 then Ok(([], off)) else ReadHotspotsMore(buf, off, k)
  }

  /** The first `k - 1` hotspots, then one more. */
  function ReadHotspotsMore(buf: seq<Byte>, off: nat, k: nat): (r: Result<(seq<Hotspot>, nat), Fault>)
    requires k > 0
    ensures r.Ok? ==> |r.value.0| == k
    decreases k, 0
  {
    match ReadHotspots(buf, off, k - 1)
    case Err(e) => Err(e)
    case Ok((hs, o)) =>
      match UnpackSpec(buf, o)
      case None => Err(StructError)
      case Some((h, o2)) => Ok((hs + [h], o2))
  }

  /** load_hot_chunk: the tag must read "HOT", then the hotspot count and the hotspots. */
  function HotSpec(buf: seq<Byte>, off: nat): (r: Result<(seq<Hotspot>, nat), Fault>)
    ensures r.Ok? ==> off + 7 <= |buf| && |r.value.0| == UnpackU32(buf, off + 3).value
  {
    match ReadTag(buf, off)
    case Err(e) => Err(e)
    case Ok(t) =>
      if t != "HOT" then Err(WrongChunk)
      else match UnpackU32(buf, off + 3)
        case None => Err(StructError)
        case Some(n) => ReadHotspots(buf, off + 7, n)
  }

  /** load_hot_chunk succeeds only on a chunk whose first three bytes are "HOT". */
  lemma HotTagged(buf: seq<Byte>, off: nat)
    requires HotSpec(buf, off).Ok?
    ensures At(buf, off, HotTag)
  {
    ReadTagExact(buf, off, "HOT");
    TagsEncode();
  }

  lemma {:induction false} HotspotsErr(buf: seq<Byte>, off: nat, j: nat, k: nat)
    requires j <= k && ReadHotspots(buf, off, j).Err?
    ensures ReadHotspots(buf, off, k) == ReadHotspots(buf, off, j)
    decreases k
  {
    if j < k {
      HotspotsErr(buf, off, j, k - 1);
    }
  }

  /** load_hot_chunk, unpacking one hotspot per iteration. */
  method LoadHotChunk(buf: seq<Byte>, off: nat) returns (r: Result<(seq<Hotspot>, nat), Fault>)
    ensures r == HotSpec(buf, off)
  {
    var tag := ReadTag(buf, off);
    if tag.Err? {
      return Err(tag.error);
    }
    if tag.value != "HOT" {
      return Err(WrongChunk);
    }
    var offset := off + 3;
    var count := UnpackU32(buf, offset);
    if count.None? {
      return Err(StructError);
    }
    offset := offset + 4;
    var hotspots: seq<Hotspot> := [];
    for i := 0 to count.value
      invariant ReadHotspots(buf, off + 7, i) == Ok((hotspots, offset))
    {
      var next := Unpack(buf, offset);
      if next.None? {
        HotspotsErr(buf, off + 7, i + 1, count.value);
        return Err(StructError);
      }
      hotspots := hotspots + [next.value.0];
      offset := next.value.1;
    }
    return Ok((hotspots, offset));
  }

  /** read_hot_file on the file's bytes: the MAT chunk if the file starts with one, then the HOT chunk if one follows. */
  function ReadSpec(data: seq<Byte>): Result<(seq<seq<string>>, seq<Hotspot>), Fault>
  {
    match ReadTag(data, 0)
    case Err(e) => Err(e)
    case Ok(t) =>
      var mat := if t == "MAT" then MatSpec(data, 0) else Ok(([], 0));
      match mat
      case Err(e) => Err(e)
      case Ok((materials, offset)) =>
        match ReadTag(data, offset)
        case Err(e) => Err(e)
        case Ok(t2) =>
          if t2 != "HOT" then Ok((materials, []))
          else match HotSpec(data, offset)
            case Err(e) => Err(e)
            case Ok((hotspots, _)) => Ok((materials, hotspots))
  }

  /** read_hot_file, after the file has been read into `data`. */
  method ReadHotFile(data: seq<Byte>) returns (r: Result<(seq<seq<string>>, seq<Hotspot>), Fault>)
    ensures r == ReadSpec(data)
  {
    var materials: seq<seq<string>> := [];
    var hotspots: seq<Hotspot> := [];
    var offset := 0;
    var name := ReadTag(data, offset);
    if name.Err? {
      return Err(name.error);
    }
    if name.value == "MAT" {
      var mat := LoadMatSubchunk(data, offset);
      if mat.Err? {
        return Err(mat.error);
      }
      materials, offset := mat.value.0, mat.value.1;
    }
    name := ReadTag(data, offset);
    if name.Err? {
      return Err(name.error);
    }
    if name.value == "HOT" {
      var hot := LoadHotChunk(data, offset);
      if hot.Err? {
        return Err(hot.error);
      }
      hotspots := hot.value.0;
    }
    return Ok((materials, hotspots));
  }

  // ---------------------------------------------------------------- writing

  /**
   * What the size field of a name counts: its characters (as
   * write_hot_file does) or its UTF-8 bytes (what the reader needs).
   */
  datatype Sizing = CharCount | ByteCount

  function SizeOf(s: string, sizing: Sizing): nat
  {
    if sizing == CharCount then |s| else |Encode(s)|
  }

  /** struct.pack('>{n}s', b): `b` cut to `n` bytes, or padded with zero bytes. */
  function Fit(b: seq<Byte>, n: nat): (r: seq<Byte>)
    ensures |r| == n
    ensures |b| >= n ==> r == b[..n]
  {
    if |b| >= n then b[..n] else b + seq(n - |b|, _ => 0)
  }

  /** Every count and size the writer packs fits in '>I'. */
  predicate Fits(materials: seq<seq<string>>, hotspots: seq<Hotspot>, sizing: Sizing)
  {
    && |materials| < TwoTo32 && |hotspots| < TwoTo32
    && (forall i :: 0 <= i < |materials| ==> |materials[i]| < TwoTo32)
    && (forall i, j :: 0 <= i < |materials| && 0 <= j < |materials[i]| ==> SizeOf(materials[i][j], sizing) < TwoTo32)
    && (forall i :: 0 <= i < |hotspots| ==> |hotspots[i].data| < TwoTo32)
  }

  function StringBytes(s: string, sizing: Sizing): seq<Byte>
    requires SizeOf(s, sizing) < TwoTo32
  {
    PackU32(SizeOf(s, sizing)) + Fit(Encode(s), SizeOf(s, sizing))
  }

  /** A group's names, each as its size field and its (fitted) encoding. */
  function StringsBytes(xs: seq<string>, sizing: Sizing): seq<Byte>
    requires forall j :: 0 <= j < |xs| ==> SizeOf(xs[j], sizing) < TwoTo32
    decreases |xs|, 1
  {
    if xs == [] then [] else StringsBytesMore(xs, sizing)
  }

  /** StringsBytes of a non-empty group: the names before the last, then the last. */
  function StringsBytesMore(xs: seq<string>, sizing: Sizing): seq<Byte>
    requires xs != [] && forall j :: 0 <= j < |xs| ==> SizeOf(xs[j], sizing) < TwoTo32
    decreases |xs|, 0
  {
    StringsBytes(xs[..|xs| - 1], sizing) + StringBytes(xs[|xs| - 1], sizing)
  }

  /** The groups, each as its '>I' name count and its names. */
  function GroupsBytes(gs: seq<seq<string>>, sizing: Sizing): seq<Byte>
    requires forall i :: 0 <= i < |gs| ==> |gs[i]| < TwoTo32
    requires forall i, j :: 0 <= i < |gs| && 0 <= j < |gs[i]| ==> SizeOf(gs[i][j], sizing) < TwoTo32
    decreases |gs|, 1
  {
    if gs == [] then [] else GroupsBytesMore(gs, sizing)
  }

  /** GroupsBytes of a non-empty list: the groups before the last, then the last. */
  function GroupsBytesMore(gs: seq<seq<string>>, sizing: Sizing): seq<Byte>
    requires gs != [] && forall i :: 0 <= i < |gs| ==> |gs[i]| < TwoTo32
    requires forall i, j :: 0 <= i < |gs| && 0 <= j < |gs[i]| ==> SizeOf(gs[i][j], sizing) < TwoTo32
    decreases |gs|, 0
  {
    GroupsBytes(gs[..|gs| - 1], sizing) + PackU32(|gs[|gs| - 1]|) + StringsBytes(gs[|gs| - 1], sizing)
  }

  /** The hotspots' bytes(), one after the other. */
  function HotspotsBytes(hs: seq<Hotspot>): seq<Byte>
    requires forall i :: 0 <= i < |hs| ==> |hs[i].data| < TwoTo32
    decreases |hs|, 1
  {
    if hs == [] then [] else HotspotsBytesMore(hs)
  }

  /** HotspotsBytes of a non-empty list: the hotspots before the last, then the last. */
  function HotspotsBytesMore(hs: seq<Hotspot>): seq<Byte>
    requires hs != [] && forall i :: 0 <= i < |hs| ==> |hs[i].data| < TwoTo32
    decreases |hs|, 0
  {
    HotspotsBytes(hs[..|hs| - 1]) + HotspotBytes(hs[|hs| - 1]).value
  }

  /**
   * The bytes write_hot_file puts in the file, or the exception it raises:
   * lists of different lengths, or a count or size beyond '>I'.
   */
  function WriteBytes(materials: seq<seq<string>>, hotspots: seq<Hotspot>, sizing: Sizing): (r: Result<seq<Byte>, Fault>)
    ensures r == Err(CountMismatch) <==> |hotspots| != |materials|
    ensures r == Err(StructError) <==> |hotspots| == |materials| && !Fits(materials, hotspots, sizing)
    ensures r.Ok? <==> |hotspots| == |materials| && Fits(materials, hotspots, sizing)
    ensures r.Ok? ==> |r.value| == 14 + GroupsSize(materials, sizing) + HotspotsSize(hotspots)
    ensures r.Ok? ==> r.value[..3] == MatTag
  {
    if |hotspots| != |materials| then Err(CountMismatch)
    else if !Fits(materials, hotspots, sizing) then Err(StructError)
    else
      GroupsBytesLength(materials, sizing);
      HotspotsBytesLength(hotspots);
      Ok(MatTag + PackU32(|materials|) + GroupsBytes(materials, sizing)
         + HotTag + PackU32(|hotspots|) + HotspotsBytes(hotspots))
  }

  /** The names' bytes are as long as StringsSize says, whichever the sizing. */
  lemma {:induction false} StringsBytesLength(xs: seq<string>, sizing: Sizing)
    requires forall j :: 0 <= j < |xs| ==> SizeOf(xs[j], sizing) < TwoTo32
    ensures |StringsBytes(xs, sizing)| == StringsSize(xs, sizing)
    decreases |xs|
  {
    if xs != [] {
      StringsBytesLength(xs[..|xs| - 1], sizing);
      assert StringsBytes(xs, sizing) == StringsBytesMore(xs, sizing);
    }
  }

  /** The groups' bytes are as long as GroupsSize says. */
  lemma {:induction false} GroupsBytesLength(gs: seq<seq<string>>, sizing: Sizing)
    requires forall i :: 0 <= i < |gs| ==> |gs[i]| < TwoTo32
    requires forall i, j :: 0 <= i < |gs| && 0 <= j < |gs[i]| ==> SizeOf(gs[i][j], sizing) < TwoTo32
    ensures |GroupsBytes(gs, sizing)| == GroupsSize(gs, sizing)
    decreases |gs|
  {
    if gs != [] {
      GroupsBytesLength(gs[..|gs| - 1], sizing);
      StringsBytesLength(gs[|gs| - 1], sizing);
      assert GroupsBytes(gs, sizing) == GroupsBytesMore(gs, sizing);
    }
  }

  /** The hotspots' bytes are as long as HotspotsSize says. */
  lemma {:induction false} HotspotsBytesLength(hs: seq<Hotspot>)
    requires forall i :: 0 <= i < |hs| ==> |hs[i].data| < TwoTo32
    ensures |HotspotsBytes(hs)| == HotspotsSize(hs)
    decreases |hs|
  {
    if hs != [] {
      HotspotsBytesLength(hs[..|hs| - 1]);
      assert HotspotsBytes(hs) == HotspotsBytesMore(hs);
    }
  }

  /** write_hot_file as written: each name's size field holds its character count. */
  function WriteHotFileAsWritten(materials: seq<seq<string>>, hotspots: seq<Hotspot>): (r: Result<seq<Byte>, Fault>)
    ensures r.Ok? <==> |hotspots| == |materials| && Fits(materials, hotspots, CharCount)
    ensures r.Ok? ==> |r.value| == 14 + GroupsSize(materials, CharCount) + HotspotsSize(hotspots)
  {
    WriteBytes(materials, hotspots, CharCount)
  }

  /** write_hot_file with each name's size field holding its byte count. */
  function WriteHotFile(materials: seq<seq<string>>, hotspots: seq<Hotspot>): (r: Result<seq<Byte>, Fault>)
    ensures r.Ok? <==> |hotspots| == |materials| && Fits(materials, hotspots, ByteCount)
    ensures r.Ok? ==> |r.value| == 14 + GroupsSize(materials, ByteCount) + HotspotsSize(hotspots)
  {
    WriteBytes(materials, hotspots, ByteCount)
  }

  /** Every rectangle of every hotspot is ordered and on the 1/32768 grid of [0,1]. */
  predicate AllStorable(hotspots: seq<Hotspot>)
  {
    forall i :: 0 <= i < |hotspots| ==> Storable(hotspots[i].data)
  }

  /** Every material name is ASCII. */
  predicate AllAscii(materials: seq<seq<string>>)
  {
    forall i, j :: 0 <= i < |materials| && 0 <= j < |materials[i]| ==> Ascii(materials[i][j])
  }

  // ---------------------------------------------------------------- round trips

  /** A size field, then bytes of that length that decode to `s`: the name reads as `s`. */
  lemma ReadStringOk(buf: seq<Byte>, off: nat, n: nat, s: string)
    requires UnpackU32(buf, off) == Some(n) && off + 4 + n <= |buf|
    requires DecodeAt(buf, off + 4, off + 4 + n) == Some(s)
    ensures ReadString(buf, off) == Ok((s, off + 4 + n))
  {
  }

  /** A size field followed by the encoding of `s` reads as `s`. */
  lemma StringAt(buf: seq<Byte>, off: nat, s: string)
    requires |Encode(s)| < TwoTo32 && At(buf, off, StringBytes(s, ByteCount))
    ensures ReadString(buf, off) == Ok((s, off + |StringBytes(s, ByteCount)|))
  {
    var e := Encode(s);
    assert StringBytes(s, ByteCount) == PackU32(|e|) + e;
    AtSplit(buf, off, PackU32(|e|), e);
    U32At(buf, off, |e|);
    DecodeEncodeAt(buf, off + 4, s);
    ReadStringOk(buf, off, |e|, s);
  }

  /** All names but the last read, then the last one's bytes: all of them read. */
  lemma StringsSnoc(buf: seq<Byte>, off: nat, xs: seq<string>, init: seq<string>, last: string, o: nat, o2: nat)
    requires xs != [] && init == xs[..|xs| - 1] && last == xs[|xs| - 1]
    requires ReadStrings(buf, off, |init|) == Ok((init, o))
    requires |Encode(last)| < TwoTo32 && At(buf, o, StringBytes(last, ByteCount))
    requires o2 == o + |StringBytes(last, ByteCount)|
    ensures ReadStrings(buf, off, |xs|) == Ok((xs, o2))
  {
    StringAt(buf, o, last);
    assert ReadStrings(buf, off, |xs|) == ReadStringsMore(buf, off, |xs|);
    assert init + [last] == xs;
  }

  /** The names' bytes, wherever they sit, read back as the names. */
  lemma {:induction false} StringsAt(buf: seq<Byte>, off: nat, xs: seq<string>)
    requires forall j :: 0 <= j < |xs| ==> |Encode(xs[j])| < TwoTo32
    requires At(buf, off, StringsBytes(xs, ByteCount))
    ensures ReadStrings(buf, off, |xs|) == Ok((xs, off + |StringsBytes(xs, ByteCount)|))
  {
    if xs != [] {
      var init, last := xs[..|xs| - 1], xs[|xs| - 1];
      var a, b := StringsBytes(init, ByteCount), StringBytes(last, ByteCount);
      assert At(buf, off, a) && At(buf, off + |a|, b) && |StringsBytes(xs, ByteCount)| == |a| + |b| by {
        assert StringsBytes(xs, ByteCount) == StringsBytesMore(xs, ByteCount) == a + b;
        AtSplit(buf, off, a, b);
      }
      StringsAt(buf, off, init);
      StringsSnoc(buf, off, xs, init, last, off + |a|, off + |a| + |b|);
    } else {
      assert StringsBytes(xs, ByteCount) == [];
    }
  }

  /** A count field, then that many names: the group reads as those names. */
  lemma ReadGroupOk(buf: seq<Byte>, off: nat, xs: seq<string>, o: nat)
    requires UnpackU32(buf, off) == Some(|xs|) && ReadStrings(buf, off + 4, |xs|) == Ok((xs, o))
    ensures ReadGroup(buf, off) == Ok((xs, o))
  {
  }

  /** A count field followed by that many names reads as one group. */
  lemma GroupAt(buf: seq<Byte>, off: nat, xs: seq<string>)
    requires |xs| < TwoTo32 && forall j :: 0 <= j < |xs| ==> |Encode(xs[j])| < TwoTo32
    requires At(buf, off, PackU32(|xs|) + StringsBytes(xs, ByteCount))
    ensures ReadGroup(buf, off) == Ok((xs, off + 4 + |StringsBytes(xs, ByteCount)|))
  {
    var b := StringsBytes(xs, ByteCount);
    AtSplit(buf, off, PackU32(|xs|), b);
    assert UnpackU32(buf, off) == Some(|xs|) by {
      U32At(buf, off, |xs|);
    }
    assert ReadStrings(buf, off + 4, |xs|) == Ok((xs, off + 4 + |b|)) by {
      StringsAt(buf, off + 4, xs);
    }
    ReadGroupOk(buf, off, xs, off + 4 + |b|);
  }

  /** All groups but the last read, then the last one's bytes: all of them read. */
  lemma GroupsSnoc(buf: seq<Byte>, off: nat, gs: seq<seq<string>>, init: seq<seq<string>>, last: seq<string>, o: nat, o2: nat)
    requires gs != [] && init == gs[..|gs| - 1] && last == gs[|gs| - 1]
    requires ReadGroups(buf, off, |init|) == Ok((init, o))
    requires |last| < TwoTo32 && forall j :: 0 <= j < |last| ==> |Encode(last[j])| < TwoTo32
    requires At(buf, o, PackU32(|last|) + StringsBytes(last, ByteCount))
    requires o2 == o + 4 + |StringsBytes(last, ByteCount)|
    ensures ReadGroups(buf, off, |gs|) == Ok((gs, o2))
  {
    GroupAt(buf, o, last);
    assert ReadGroups(buf, off, |gs|) == ReadGroupsMore(buf, off, |gs|);
    assert init + [last] == gs;
  }

  /** The groups' bytes, wherever they sit, read back as the groups. */
  lemma {:induction false} GroupsAt(buf: seq<Byte>, off: nat, gs: seq<seq<string>>)
    requires forall i :: 0 <= i < |gs| ==> |gs[i]| < TwoTo32
    requires forall i, j :: 0 <= i < |gs| && 0 <= j < |gs[i]| ==> |Encode(gs[i][j])| < TwoTo32
    requires At(buf, off, GroupsBytes(gs, ByteCount))
    ensures ReadGroups(buf, off, |gs|) == Ok((gs, off + |GroupsBytes(gs, ByteCount)|))
  {
    if gs != [] {
      var init, last := gs[..|gs| - 1], gs[|gs| - 1];
      var a := GroupsBytes(init, ByteCount);
      var b := PackU32(|last|) + StringsBytes(last, ByteCount);
      assert GroupsBytes(gs, ByteCount) == GroupsBytesMore(gs, ByteCount) == a + b;
      AtSplit(buf, off, a, b);
      assert ReadGroups(buf, off, |init|) == Ok((init, off + |a|)) by {
        GroupsAt(buf, off, init);
      }
      GroupsSnoc(buf, off, gs, init, last, off + |a|, off + |GroupsBytes(gs, ByteCount)|);
    } else {
      assert GroupsBytes(gs, ByteCount) == [];
    }
  }

  /** All hotspots but the last read, then the last one's bytes: all of them read. */
  lemma HotspotsSnoc(buf: seq<Byte>, off: nat, hs: seq<Hotspot>, o: nat, o2: nat)
    requires hs != [] && ReadHotspots(buf, off, |hs| - 1) == Ok((Reloaded(hs[..|hs| - 1]), o))
    requires |hs[|hs| - 1].data| < TwoTo32 && Storable(hs[|hs| - 1].data)
    requires At(buf, o, HotspotBytes(hs[|hs| - 1]).value)
    requires o2 == o + |HotspotBytes(hs[|hs| - 1]).value|
    ensures ReadHotspots(buf, off, |hs|) == Ok((Reloaded(hs), o2))
  {
    var last := hs[|hs| - 1];
    UnpackRoundTrip(buf, o, last);
    assert Reloaded(hs[..|hs| - 1]) + [Hotspot("", Positive(last.data))] == Reloaded(hs);
  }

  /** The hotspots' bytes, wherever they sit, read back as the hotspots a reader gets. */
  lemma {:induction false} HotspotsAt(buf: seq<Byte>, off: nat, hs: seq<Hotspot>)
    requires forall i :: 0 <= i < |hs| ==> |hs[i].data| < TwoTo32 && Storable(hs[i].data)
    requires At(buf, off, HotspotsBytes(hs))
    ensures ReadHotspots(buf, off, |hs|) == Ok((Reloaded(hs), off + |HotspotsBytes(hs)|))
  {
    if hs != [] {
      var init, last := hs[..|hs| - 1], hs[|hs| - 1];
      var a := HotspotsBytes(init);
      assert HotspotsBytes(hs) == HotspotsBytesMore(hs) == a + HotspotBytes(last).value;
      AtSplit(buf, off, a, HotspotBytes(last).value);
      HotspotsAt(buf, off, init);
      HotspotsSnoc(buf, off, hs, off + |a|, off + |HotspotsBytes(hs)|);
    } else {
      assert HotspotsBytes(hs) == [];
    }
  }

  /** The hotspots as a reader gets them back: unnamed, holding their rectangles of positive area. */
  function Reloaded(hs: seq<Hotspot>): (r: seq<Hotspot>)
    ensures |r| == |hs|
  {
    seq(|hs|, i requires 0 <= i < |hs| => Hotspot("", Positive(hs[i].data)))
  }

  /**
   * What write_hot_file writes (sizes in bytes), read_hot_file reads back:
   * the same material groups, and the hotspots unnamed with their
   * rectangles of positive area, when every rectangle is ordered and lies
   * on the 1/32768 grid of [0,1].
   */
  lemma FileRoundTrip(materials: seq<seq<string>>, hotspots: seq<Hotspot>)
    requires WriteHotFile(materials, hotspots).Ok?
    requires AllStorable(hotspots)
    ensures ReadSpec(WriteHotFile(materials, hotspots).value) == Ok((materials, Reloaded(hotspots)))
  {
    var mat := MatTag + PackU32(|materials|) + GroupsBytes(materials, ByteCount);
    var hot := HotTag + PackU32(|hotspots|) + HotspotsBytes(hotspots);
    var data := WriteHotFile(materials, hotspots).value;
    assert data == mat + hot;
    AtSelf(data);
    AtSplit(data, 0, mat, hot);
    MatChunkAt(data, 0, materials);
    HotChunkAt(data, |mat|, hotspots);
  }

  /** The tag "MAT", a count, then that many groups: the chunk loads as those groups. */
  lemma MatSpecOk(buf: seq<Byte>, off: nat, gs: seq<seq<string>>, o: nat)
    requires ReadTag(buf, off) == Ok("MAT") && UnpackU32(buf, off + 3) == Some(|gs|)
    requires ReadGroups(buf, off + 7, |gs|) == Ok((gs, o))
    ensures MatSpec(buf, off) == Ok((gs, o))
  {
  }

  /** The tag "HOT", a count, then that many hotspots: the chunk loads as those hotspots. */
  lemma HotSpecOk(buf: seq<Byte>, off: nat, hs: seq<Hotspot>, o: nat)
    requires ReadTag(buf, off) == Ok("HOT") && UnpackU32(buf, off + 3) == Some(|hs|)
    requires ReadHotspots(buf, off + 7, |hs|) == Ok((hs, o))
    ensures HotSpec(buf, off) == Ok((hs, o))
  {
  }

  /** The bytes of a MAT chunk, wherever they sit, load as its groups. */
  lemma MatChunkAt(buf: seq<Byte>, off: nat, materials: seq<seq<string>>)
    requires |materials| < TwoTo32 && forall i :: 0 <= i < |materials| ==> |materials[i]| < TwoTo32
    requires forall i, j :: 0 <= i < |materials| && 0 <= j < |materials[i]| ==> |Encode(materials[i][j])| < TwoTo32
    requires At(buf, off, MatTag + PackU32(|materials|) + GroupsBytes(materials, ByteCount))
    ensures ReadTag(buf, off) == Ok("MAT")
    ensures MatSpec(buf, off) == Ok((materials, off + 7 + |GroupsBytes(materials, ByteCount)|))
  {
    var g := GroupsBytes(materials, ByteCount);
    TagsEncode();
    ChunkHeaderAt(buf, off, MatTag, "MAT", |materials|, g);
    GroupsAt(buf, off + 7, materials);
    MatSpecOk(buf, off, materials, off + 7 + |g|);
  }

  /** A chunk's tag and '>I' count, followed by its body: the tag reads as its name, the count as itself. */
  lemma ChunkHeaderAt(buf: seq<Byte>, off: nat, tag: seq<Byte>, name: string, n: nat, body: seq<Byte>)
    requires Encode(name) == tag && |tag| == 3 && n < TwoTo32
    requires At(buf, off, tag + PackU32(n) + body)
    ensures ReadTag(buf, off) == Ok(name) && UnpackU32(buf, off + 3) == Some(n) && At(buf, off + 7, body)
  {
    var c := PackU32(n);
    AtSplit(buf, off, tag + c, body);
    AtSplit(buf, off, tag, c);
    ReadTagExact(buf, off, name);
    U32At(buf, off + 3, n);
  }

  /** The bytes of a HOT chunk, wherever they sit, load as its hotspots, unnamed and of positive area. */
  lemma HotChunkAt(buf: seq<Byte>, off: nat, hotspots: seq<Hotspot>)
    requires |hotspots| < TwoTo32
    requires forall i :: 0 <= i < |hotspots| ==> |hotspots[i].data| < TwoTo32 && Storable(hotspots[i].data)
    requires At(buf, off, HotTag + PackU32(|hotspots|) + HotspotsBytes(hotspots))
    ensures ReadTag(buf, off) == Ok("HOT")
    ensures HotSpec(buf, off) == Ok((Reloaded(hotspots), off + 7 + |HotspotsBytes(hotspots)|))
  {
    var h := HotspotsBytes(hotspots);
    TagsEncode();
    ChunkHeaderAt(buf, off, HotTag, "HOT", |hotspots|, h);
    HotspotsAt(buf, off + 7, hotspots);
    HotSpecOk(buf, off, Reloaded(hotspots), off + 7 + |h|);
  }

  /** For ASCII names the two sizings write the same bytes. */
  predicate Ascii(s: string)
  {
    forall i :: 0 <= i < |s| ==> (s[i] as int) < 0x80
  }

  lemma {:induction false} SizingsAgree(gs: seq<seq<string>>)
    requires forall i, j :: 0 <= i < |gs| && 0 <= j < |gs[i]| ==> Ascii(gs[i][j])
    ensures forall i, j :: 0 <= i < |gs| && 0 <= j < |gs[i]| ==> SizeOf(gs[i][j], CharCount) == SizeOf(gs[i][j], ByteCount)
    ensures forall hs :: WriteHotFileAsWritten(gs, hs) == WriteHotFile(gs, hs)
  {
    forall i, j | 0 <= i < |gs| && 0 <= j < |gs[i]|
      ensures SizeOf(gs[i][j], CharCount) == SizeOf(gs[i][j], ByteCount)
    {
      EncodeLength(gs[i][j]);
    }
    forall hs
      ensures WriteHotFileAsWritten(gs, hs) == WriteHotFile(gs, hs)
    {
      if |hs| == |gs| && Fits(gs, hs, CharCount) {
        GroupsAgree(gs);
      }
    }
  }

  lemma {:induction false} GroupsAgree(gs: seq<seq<string>>)
    requires forall i :: 0 <= i < |gs| ==> |gs[i]| < TwoTo32
    requires forall i, j :: 0 <= i < |gs| && 0 <= j < |gs[i]| ==> Ascii(gs[i][j]) && |gs[i][j]| < TwoTo32
    ensures forall i, j :: 0 <= i < |gs| && 0 <= j < |gs[i]| ==> SizeOf(gs[i][j], ByteCount) < TwoTo32
    ensures GroupsBytes(gs, CharCount) == GroupsBytes(gs, ByteCount)
  {
    forall i, j | 0 <= i < |gs| && 0 <= j < |gs[i]|
      ensures SizeOf(gs[i][j], ByteCount) == |gs[i][j]|
    {
      EncodeLength(gs[i][j]);
    }
    if gs != [] {
      GroupsAgree(gs[..|gs| - 1]);
      StringsAgree(gs[|gs| - 1]);
    }
  }

  lemma {:induction false} StringsAgree(xs: seq<string>)
    requires forall j :: 0 <= j < |xs| ==> Ascii(xs[j]) && |xs[j]| < TwoTo32
    ensures forall j :: 0 <= j < |xs| ==> SizeOf(xs[j], ByteCount) < TwoTo32
    ensures StringsBytes(xs, CharCount) == StringsBytes(xs, ByteCount)
  {
    forall j | 0 <= j < |xs|
      ensures |Encode(xs[j])| == |xs[j]|
    {
      EncodeLength(xs[j]);
    }
    if xs != [] {
      StringsAgree(xs[..|xs| - 1]);
    }
  }

  /** With ASCII names, the file as write_hot_file writes it reads back. */
  lemma AsciiRoundTrip(materials: seq<seq<string>>, hotspots: seq<Hotspot>)
    requires WriteHotFileAsWritten(materials, hotspots).Ok?
    requires AllAscii(materials) && AllStorable(hotspots)
    ensures ReadSpec(WriteHotFileAsWritten(materials, hotspots).value) == Ok((materials, Reloaded(hotspots)))
  {
    SizingsAgree(materials);
    FileRoundTrip(materials, hotspots);
  }

  /** The MAT chunk write_hot_file writes for one group holding the one name "é". */
  const NonAsciiChunk: seq<Byte> := MatTag + [0, 0, 0, 1] + [0, 0, 0, 1, 0, 0, 0, 1, 0xC3]

  /**
   * A material named "é" (one character, two bytes): its size field says 1,
   * and only the first byte of its encoding is written.
   */
  lemma NonAsciiWritten()
    ensures WriteHotFileAsWritten([["é"]], [Hotspot("", [])]).Ok?
    ensures WriteHotFileAsWritten([["é"]], [Hotspot("", [])]).value[..16] == NonAsciiChunk
  {
    var ms := [["é"]];
    assert Encode("é") == [0xC3, 0xA9];
    assert StringsBytes(["é"], CharCount) == [0, 0, 0, 1, 0xC3] by {
      assert ["é"][..0] == [];
      assert StringsBytes(["é"], CharCount) == StringsBytesMore(["é"], CharCount);
    }
    assert GroupsBytes(ms, CharCount) == [0, 0, 0, 1, 0, 0, 0, 1, 0xC3] by {
      assert ms[..0] == [];
      assert GroupsBytes(ms, CharCount) == GroupsBytesMore(ms, CharCount);
    }
  }

  /** A file that starts with that chunk fails to read with a UnicodeDecodeError. */
  lemma NonAsciiUnreadable(data: seq<Byte>)
    requires |data| >= 16 && data[..16] == NonAsciiChunk
    ensures ReadSpec(data) == Err(DecodeError)
  {
    TagsEncode();
    assert At(data, 0, Encode("MAT")) by {
      AtIndex(data, 0, Encode("MAT"));
      assert forall i :: 0 <= i < 3 ==> data[i] == data[..16][i];
    }
    ReadTagExact(data, 0, "MAT");
    assert data[11] == 0 && data[12] == 0 && data[13] == 0 && data[14] == 1 && data[15] == 0xC3 by {
      assert forall i :: 0 <= i < 16 ==> data[i] == data[..16][i];
    }
    assert UnpackU32(data, 11) == Some(1);
    assert DecodeCharAt(data, 15, 16) == None;
    assert DecodeAt(data, 15, 16) == DecodeFirst(data, 15, 16) == None;
    assert ReadString(data, 11) == Err(DecodeError);
    assert ReadStrings(data, 11, 1) == Err(DecodeError) by {
      assert ReadStrings(data, 11, 1) == ReadStringsMore(data, 11, 1);
    }
    assert ReadGroup(data, 7) == Err(DecodeError);
    assert ReadGroups(data, 7, 0) == Ok(([], 7));
    GroupFails(data, 7, 0, 1, [], 7, DecodeError);
    assert MatSpec(data, 0) == Err(DecodeError);
  }

  /**
   * So the file write_hot_file writes for that material cannot be read back.
   */
  lemma NonAsciiNameLost()
    ensures WriteHotFileAsWritten([["é"]], [Hotspot("", [])]).Ok?
    ensures ReadSpec(WriteHotFileAsWritten([["é"]], [Hotspot("", [])]).value) == Err(DecodeError)
  {
    NonAsciiWritten();
    NonAsciiUnreadable(WriteHotFileAsWritten([["é"]], [Hotspot("", [])]).value);
  }
}
