/** Reading a binary property list: the trailer check and the recursive object reader. */
module PlistReader {
  import opened PlistBytes
  import opened Bits
  import opened PlistGraph
  import opened PlistFormat

  // ---------- the trailer ----------

  const HEADER: Bytes := [0x62, 0x70, 0x6c, 0x69, 0x73, 0x74, 0x30, 0x30]    // "bplist00"
  const HEADER_1: Bytes := [0x62, 0x70, 0x6c, 0x69, 0x73, 0x74, 0x30, 0x31]  // "bplist01"

  function ParseTrailer(t: Bytes): Trailer
    requires |t| == 32
  {
    Trailer(t[6], t[7], FromBigEndian(t[8..16]), FromBigEndian(t[16..24]), FromBigEndian(t[24..32]))
  }

  function DocOf(data: Bytes): Doc
    requires |data| >= 32
  {
    Doc(data, ParseTrailer(data[|data| - 32..]))
  }

  /** A field of `size` bytes can hold every value up to `limit`. */
  predicate WideEnough(size: nat, limit: nat) {
    size < 8 ==> limit < Pow256(size)
  }

  /** A legal header, and zeros in the unused first bytes of the trailer. */
  predicate Framed(data: Bytes) {
    && |data| >= 32 + 8 + 1
    && (data[..8] == HEADER || data[..8] == HEADER_1)
    && forall i :: |data| - 32 <= i < |data| - 26 ==> data[i] == 0
  }

  /** Field widths and table are consistent, and the top object is among the objects. */
  ghost predicate Sound(d: Doc) {
    && Accepted(d)
    && WideEnough(d.tr.objectRefSize, d.tr.numObjects)
    && WideEnough(d.tr.offsetIntSize, d.tr.tableOffset)
    && 8 <= TableEntry(d, d.tr.topObject)
  }

  ghost predicate Acceptable(data: Bytes) {
    Framed(data) && Sound(DocOf(data))
  }

  /** The trailer check accepts exactly the acceptable documents, and finds the top object. */
  method GetTopLevelInfo(data: Bytes) returns (r: Option<(nat, Trailer)>)
    requires |data| < SPAN64
    ensures r.Some? <==> Acceptable(data)
    ensures r.Some? ==> r.value == (TableEntry(DocOf(data), DocOf(data).tr.topObject), DocOf(data).tr)
  {
    if |data| < 32 + 8 + 1 || (data[..8] != HEADER && data[..8] != HEADER_1) {
      return None;
    }
    for i := |data| - 32 to |data| - 26
      invariant forall j :: |data| - 32 <= j < i ==> data[j] == 0
    {
      if data[i] != 0 {
        return None;
      }
    }
    var d := DocOf(data);
    var top := CheckTrailer(d);
    return if top.Some? then Some((top.value, d.tr)) else None;
  }

  method CheckTrailer(d: Doc) returns (top: Option<nat>)
    requires |d.data| < SPAN64
    ensures top.Some? <==> Sound(d)
    ensures top.Some? ==> top.value == TableEntry(d, d.tr.topObject)
  {
    var ok := CheckNumbers(d);
    if ok {
      ok := CheckTable(d);
    }
    if !ok {
      return None;
    }
    EntryInTable(d.tr, d.tr.topObject);
    var off := Accumulate(d.data, EntryAt(d.tr, d.tr.topObject), d.tr.offsetIntSize);
    if off < 8 || d.tr.tableOffset <= off {
      return None;
    }
    return Some(off);
  }

  method CheckNumbers(d: Doc) returns (ok: bool)
    requires |d.data| < SPAN64
    ensures ok <==> Tiled(d) && WideEnough(d.tr.objectRefSize, d.tr.numObjects)
                    && WideEnough(d.tr.offsetIntSize, d.tr.tableOffset)
  {
    var Trailer(intSize, refSize, num, top, table) := d.tr;
    if LONG_MAX < num || LONG_MAX < table || num < 1 || num <= top || table < 9 || intSize < 1 || refSize < 1 {
      return false;
    }
    FieldsIsProduct(num, intSize);
    ok := table + num * intSize + 32 == |d.data| && WideEnough(refSize, num) && WideEnough(intSize, table);
  }

  method CheckTable(d: Doc) returns (ok: bool)
    requires Tiled(d)
    ensures ok <==> Accepted(d)
  {
    var at := d.tr.tableOffset;
    for i := 0 to d.tr.numObjects
      invariant at == EntryAt(d.tr, i)
      invariant forall j :: 0 <= j < i ==> TableEntry(d, j) < d.tr.tableOffset
    {
      EntryInTable(d.tr, i);
      var off := Accumulate(d.data, at, d.tr.offsetIntSize);
      assert off == TableEntry(d, i);
      if d.tr.tableOffset - 1 < off {
        return false;
      }
      at := at + d.tr.offsetIntSize;
    }
    return true;
  }

  // ---------- one object ----------

  method GetOffsetOfRefAt(d: Doc, p: int) returns (off: nat)
    requires Tiled(d)
    ensures off == OffsetOfRef(d, p)
  {
    if p < 8 || d.tr.tableOffset - d.tr.objectRefSize < p {
      return MAX_OFFSET;
    }
    var ref := Accumulate(d.data, p, d.tr.objectRefSize);
    if d.tr.numObjects <= ref {
      return MAX_OFFSET;
    }
    EntryInTable(d.tr, ref);
    off := Accumulate(d.data, EntryAt(d.tr, ref), d.tr.offsetIntSize);
  }

  /** An embedded integer, as `_readInt` reads it. */
  method ReadEmbedded(d: Doc, p: nat) returns (r: Option<(nat, nat)>)
    requires Tiled(d)
    ensures r == ReadInt(d, p)
  {
    if d.tr.tableOffset - 1 < p || d.data[p] / 16 != 1 {
      return None;
    }
    var n := Pow2(d.data[p] % 16);
    if d.tr.tableOffset - 1 < p + n {
      return None;
    }
    var v := Accumulate(d.data, p + 1, n);
    return Some((v, p + 1 + n));
  }

  method CountOf(d: Doc, o: nat) returns (r: Option<(nat, nat)>)
    requires Tiled(d) && o < d.tr.tableOffset
    ensures r == ReadCount(d, o)
  {
    var cnt := d.data[o] % 16;
    if cnt != 15 {
      return Some((cnt, o + 1));
    }
    r := ReadEmbedded(d, o + 1);
    if r.Some? && LONG_MAX < r.value.0 {
      r := None;
    }
  }

  /** Byte-swaps UTF-16 content, unit by unit. */
  method SwapUnits(s: Bytes) returns (u: seq<Unit16>)
    ensures u == Units(s)
  {
    u := [];
    var n := |s| / 2;
    for i := 0 to n
      invariant |u| == i && forall j :: 0 <= j < i ==> u[j] == Units(s)[j]
    {
      assert 2 * i + 1 < |s|;
      u := u + [Pair(s[2 * i], s[2 * i + 1])];
    }
  }

  method ReadFixed(d: Doc, o: nat, n: nat, form: Form) returns (r: Option<Raw>)
    requires Tiled(d) && o < d.tr.tableOffset
    ensures r == Fixed(d, o, n, form)
  {
    if d.tr.tableOffset - 1 < o + n {
      return None;
    }
    var s := d.data[o + 1..o + 1 + n];
    if form.IntForm? || form.UidForm? {
      var v := Accumulate(d.data, o + 1, n);
      if form.UidForm? {
        return if 0xffff_ffff < v then None else Some(Whole(Scalar(Uid(v))));
      }
      if 16 < n {
        return None;
      }
      return Some(Whole(Scalar(if 8 < n then Int128(0, v) else Int(v))));
    }
    return AsRaw(Decode(form, s));
  }

  method ReadCounted(d: Doc, o: nat, form: Form) returns (r: Option<Raw>)
    requires Tiled(d) && o < d.tr.tableOffset
    ensures r == Counted(d, o, form)
  {
    var c := CountOf(d, o);
    if c.None? {
      return None;
    }
    var (cnt, ptr) := c.value;
    if d.tr.tableOffset - 1 < ptr + Extent(form, cnt) - 1 {
      return None;
    }
    var s := d.data[ptr..ptr + Extent(form, cnt)];
    if form.Utf16Form? {
      var u := SwapUnits(s);
      return Some(Whole(Scalar(Str(u))));
    }
    return AsRaw(Decode(form, s));
  }

  method ReadReferences(d: Doc, o: nat, kind: Kind) returns (r: Option<Raw>)
    requires Tiled(d) && o < d.tr.tableOffset
    ensures r == References(d, o, kind)
  {
    var c := CountOf(d, o);
    if c.None? {
      return None;
    }
    var (cnt, ptr) := c.value;
    if kind.DictKind? {
      cnt := 2 * cnt;
    }
    if d.tr.tableOffset - 1 < RefAt(d.tr, ptr, cnt) - 1 || SPAN64 <= cnt * 8 {
      return None;
    }
    return Some(Parts(kind, ptr, cnt));
  }

  method ReadObject(d: Doc, o: nat) returns (r: Option<Raw>)
    requires Tiled(d)
    ensures r == RawAt(d, o)
  {
    if o < 8 || d.tr.tableOffset - 1 < o {
      return None;
    }
    match TagOf(d.data[o]) {
      case Plain(v) => r := Some(Whole(v));
      case Sized(n, form) => r := ReadFixed(d, o, n, form);
      case Listed(form) => r := ReadCounted(d, o, form);
      case Linked(kind) => r := ReadReferences(d, o, kind);
      case Unknown => r := None;
    }
  }

  // ---------- the recursive reader ----------

  datatype Mutability = Immutable | MutableContainers | MutableContainersAndLeaves

  /** Which results the memo table keeps. */
  predicate Memoizes(option: Mutability, v: PValue) {
    match v
    case Null => false
    case Scalar(Bool(_)) => false
    case Scalar(Str(_)) => !option.MutableContainersAndLeaves?
    case Scalar(Data(_)) => !option.MutableContainersAndLeaves?
    case Scalar(_) => true
    case _ => option.Immutable?
  }

  lemma {:induction false} OffsetsBelow(s: set<nat>, n: nat)
    requires forall x :: x in s ==> x < n
    ensures |s| <= n
  {
    if n > 0 {
      OffsetsBelow(s - {n - 1}, n - 1);
    } else {
      assert s == {};
    }
  }

  lemma TrailExtends(g: Graph, trail: seq<nat>, o: nat, kid: nat)
    requires LeadsTo(g, trail, o) && RefersTo(g, o, kid)
    ensures LeadsTo(g, trail + [o], kid)
  {
    forall k | 0 <= k < |trail + [o]|
      ensures Step(g, trail + [o], kid, k)
    {
      if k < |trail| {
        assert Step(g, trail, o, k);
      }
    }
  }

  class ObjectReader {
    const d: Doc
    const option: Mutability
    const memo: bool                // whether the caller supplied a table of objects
    ghost const g: Graph            // the graph of the document
    var objects: map<nat, PValue>
    var path: Option<set<nat>>      // absent until the recursion is deep

    constructor (d: Doc, option: Mutability, memo: bool)
      requires Accepted(d)
      ensures this.d == d && this.option == option && g == GraphOf(d) && Ready() && path.None?
    {
      this.d, this.option, this.memo := d, option, memo;
      g := GraphOf(d);
      objects, path := map[], None;
      GraphOfDescribes(d);
    }

    /** The document is accepted and every remembered object is what the document means. */
    ghost predicate Ready()
      reads this
    {
      && Accepted(d) && Describes(d, g)
      && forall o :: o in objects ==> Meaning(g, o) == Some(objects[o])
    }

    /** The path set, once it exists, holds offsets of objects on the way down. */
    ghost predicate OnTrail(trail: seq<nat>)
      reads this
    {
      if path.None? then |trail| <= 16
      else forall o :: o in path.value ==> o in trail && o < d.tr.tableOffset
    }

    /** Termination: depth left until the path set exists, then offsets not on the path. */
    ghost function Budget(depth: nat): int
      reads this
    {
      if path.None? then d.tr.tableOffset + 17 - depth else d.tr.tableOffset - |path.value|
    }

    method Remember(o: nat, v: PValue)
      requires Ready() && Meaning(g, o) == Some(v)
      modifies this`objects
      ensures Ready()
      ensures objects == if memo && Memoizes(option, v) then old(objects)[o := v] else old(objects)
    {
      if memo && Memoizes(option, v) {
        objects := objects[o := v];
      }
    }

    /** Reads the object at o: its meaning, whatever is remembered and wherever the recursion is. */
    method CreateObject(o: nat, depth: nat, ghost trail: seq<nat>) returns (r: Option<PValue>)
      requires Ready() && |trail| == depth && LeadsTo(g, trail, o) && OnTrail(trail) && Budget(depth) >= 0
      modifies this
      ensures Ready() && r == Meaning(g, o)
      ensures r.Some? ==> path == old(path)
      decreases Budget(depth), 1
    {
      if memo && o in objects {
        return Some(objects[o]);
      }
      if path.Some? && o in path.value {
        CycleHasNoMeaning(g, trail, o);
        return None;
      }
      var raw := ReadObject(d, o);
      assert Shows(d, g, o);
      MeaningOfObject(g, o);
      if raw.None? {
        return None;
      }
      match raw.value
      case Whole(v) =>
        Remember(o, v);
        return Some(v);
      case Parts(kind, ptr, cnt) =>
        r := CreateContainer(o, depth, trail, kind, ptr, cnt);
    }

    /** Reads a container, with its offset on the path set while its objects are read. */
    method CreateContainer(o: nat, depth: nat, ghost trail: seq<nat>, kind: Kind, ptr: nat, cnt: nat)
        returns (r: Option<PValue>)
      requires Ready() && |trail| == depth && LeadsTo(g, trail, o) && OnTrail(trail) && Budget(depth) >= 0
      requires o < d.tr.tableOffset && g(o) == Some(Container(kind, Kids(d, ptr, cnt)))
      requires path.Some? ==> o !in path.value
      modifies this
      ensures Ready() && r == Meaning(g, o)
      ensures r.Some? ==> path == old(path)
      decreases Budget(depth), 0
    {
      MeaningOfObject(g, o);
      var made := path.None? && 15 < depth;
      if made {
        path := Some({});
      }
      if path.Some? {
        OffsetsBelow(path.value + {o}, d.tr.tableOffset);
        assert |path.value + {o}| == |path.value| + 1;
        path := Some(path.value + {o});
      }
      var list := CreateKids(o, depth + 1, trail, kind, ptr, cnt);
      if list.None? {
        return None;
      }
      if path.Some? {
        path := Some(path.value - {o});
      }
      if made {
        path := None;
      }
      r := Some(Build(kind, list.value));
      Remember(o, r.value);
    }

    /** Reads the objects a container refers to, in order, until one fails. */
    method CreateKids(ghost o: nat, depth: nat, ghost trail: seq<nat>, kind: Kind, ptr: nat, cnt: nat)
        returns (list: Option<seq<PValue>>)
      requires Ready() && |trail| + 1 == depth && OnTrail(trail + [o]) && Budget(depth) >= 0
      requires g(o) == Some(Container(kind, Kids(d, ptr, cnt))) && LeadsTo(g, trail, o)
      modifies this
      ensures Ready() && list == KidMeanings(g, kind, Kids(d, ptr, cnt), cnt)
      ensures list.Some? ==> path == old(path)
      decreases Budget(depth), 3
    {
      ghost var kids := Kids(d, ptr, cnt);
      list := Some([]);
      var p := ptr;
      for i := 0 to cnt
        invariant Ready() && path == old(path) && p == RefAt(d.tr, ptr, i)
        invariant list.Some? && list == KidMeanings(g, kind, kids, i)
      {
        var v := CreateKid(o, depth, trail, kind, ptr, cnt, i, p);
        list := Extend(kind, cnt, i, list, v);
        if list.None? {
          KidMeaningsFail(g, kind, kids, i + 1, cnt);
          return;
        }
        NextRef(d.tr, ptr, i);
        p := p + d.tr.objectRefSize;
      }
    }

    method CreateKid(ghost o: nat, depth: nat, ghost trail: seq<nat>,
                     ghost kind: Kind, ghost ptr: nat, ghost cnt: nat, ghost i: nat, p: nat)
        returns (v: Option<PValue>)
      requires Ready() && |trail| + 1 == depth && OnTrail(trail + [o]) && Budget(depth) >= 0
      requires g(o) == Some(Container(kind, Kids(d, ptr, cnt))) && LeadsTo(g, trail, o)
      requires i < cnt && p == RefAt(d.tr, ptr, i)
      modifies this
      ensures Ready() && v == Meaning(g, Kids(d, ptr, cnt)[i])
      ensures v.Some? ==> path == old(path)
      decreases Budget(depth), 2
    {
      var off := GetOffsetOfRefAt(d, p);
      assert off == Kids(d, ptr, cnt)[i] && RefersTo(g, o, off);
      TrailExtends(g, trail, o, off);
      v := CreateObject(off, depth, trail + [o]);
    }
  }

  /** Parsing a whole file: nothing unless the trailer is accepted, else the meaning of the top object. */
  method TryParse(data: Bytes, option: Mutability) returns (accepted: bool, plist: Option<PValue>)
    requires |data| < SPAN64
    ensures accepted <==> Acceptable(data)
    ensures accepted ==> plist == Meaning(GraphOf(DocOf(data)), TableEntry(DocOf(data), DocOf(data).tr.topObject))
  {
    var info := GetTopLevelInfo(data);
    if info.None? {
      return false, None;
    }
    var reader := new ObjectReader(Doc(data, info.value.1), option, true);
    plist := reader.CreateObject(info.value.0, 0, []);
    accepted := true;
  }
}
