/**
 The structs of the ioctls as their headers declare them, laid out by C's rule for 64-bit
 machines: each member at the next multiple of its alignment, the whole a multiple of the
 largest.  The sizes and offsets that the other modules use are shown to be those.
 */
module Layout {

  import opened Bytes
  import opened IoctlTable
  import opened Options
  import RadeonCs
  import RadeonInfo

  datatype Member =
    | FbIdPtr | CrtcIdPtr | ConnectorIdPtr | EncoderIdPtr | CountFbs | CountCrtcs | CountConnectors | CountEncoders
    | MinWidth | MaxWidth | MinHeight | MaxHeight
    | EncodersPtr | ModesPtr | PropsPtr | PropValuesPtr | CountModes | CountProps
    | EncoderIdMember | ConnectorId | ConnectorType | ConnectorTypeId | Connection | MmWidth | MmHeight | Subpixel
    | SetConnectorsPtr | CrtcIdMember | FbId | X | Y | GammaSize | ModeValid | Mode
    | Clock | HDisplay | HSyncStart | HSyncEnd | HTotal | HSkew | VDisplay | VSyncStart | VSyncEnd | VTotal | VScan
    | VRefresh | Flags | Type | ModeName
    | VersionMajor | VersionMinor | VersionPatchlevel | NameLen | NamePtr | DateLen | DatePtr | DescLen | DescPtr
    | UniqueLen | Unique
    | DiMajor | DiMinor | DdMajor | DdMinor
    | EncoderType | PossibleCrtcs | PossibleClones
    | Capability | CapabilityValue
    | Reserved | UserData
    | NumChunks | CsId | Chunks | GartLimit | VramLimit | ChunkId | LengthDw | ChunkData
    | RequestMember | Pad | InfoValue

  datatype CType = Int16 | Int32 | Int64 | CInt | SizeT | CharPtr | Chars(n: nat) | Aggregate(size: nat, align: nat)

  /** A member with its type and the offset at which it lies. */
  datatype Row = Row(member: Member, ctype: CType, offset: nat)

  function Size(t: CType): nat
  {
    match t
    case Int16 => 2
    case Int32 | CInt => 4
    case Int64 | SizeT | CharPtr => 8
    case Chars(n) => n
    case Aggregate(size, _) => size
  }

  function Alignment(t: CType): (n: nat)
    ensures n == 1 || n == 2 || n == 4 || n == 8
  {
    match t
    case Int16 => 2
    case Int32 | CInt => 4
    case Int64 | SizeT | CharPtr => 8
    case Chars(_) => 1
    case Aggregate(_, align) => if align == 2 || align == 4 || align == 8 then align else 1
  }

  /** The next multiple of align from n on. */
  function Aligned(n: nat, align: nat): (r: nat)
    requires align == 1 || align == 2 || align == 4 || align == 8
    ensures n <= r < n + align && r % align == 0
  {
    if align == 8 then (n + 7) / 8 * 8
    else if align == 4 then (n + 3) / 4 * 4
    else if align == 2 then (n + 1) / 2 * 2
    else n
  }

  function EndOf(r: Row): nat
  {
    r.offset + Size(r.ctype)
  }

  /** Member i lies at the first place behind its predecessor that its alignment allows. */
  predicate Follows(rows: seq<Row>, i: nat)
    requires i < |rows|
  {
    rows[i].offset == Aligned(if i == 0 then 0 else EndOf(rows[i - 1]), Alignment(rows[i].ctype))
  }

  predicate LaidOut(rows: seq<Row>)
  {
    forall i | 0 <= i < |rows| :: Follows(rows, i)
  }

  /** The strictest alignment of a member. */
  predicate Strictest(rows: seq<Row>, align: nat)
  {
    && (exists i | 0 <= i < |rows| :: Alignment(rows[i].ctype) == align)
    && forall i | 0 <= i < |rows| :: Alignment(rows[i].ctype) <= align
  }

  /** The size of the whole struct. */
  predicate SizeIs(rows: seq<Row>, n: nat)
  {
    && rows != []
    && exists align | align in {1, 2, 4, 8} :: Strictest(rows, align) && n == Aligned(EndOf(rows[|rows| - 1]), align)
  }

  // ----- the structs -----

  const CARD_RES: seq<Row> :=
    [Row(FbIdPtr, Int64, 0), Row(CrtcIdPtr, Int64, 8), Row(ConnectorIdPtr, Int64, 16),
     Row(EncoderIdPtr, Int64, 24), Row(CountFbs, Int32, 32), Row(CountCrtcs, Int32, 36),
     Row(CountConnectors, Int32, 40), Row(CountEncoders, Int32, 44), Row(MinWidth, Int32, 48),
     Row(MaxWidth, Int32, 52), Row(MinHeight, Int32, 56), Row(MaxHeight, Int32, 60)]

  const MODEINFO: seq<Row> :=
    [Row(Clock, Int32, 0), Row(HDisplay, Int16, 4), Row(HSyncStart, Int16, 6), Row(HSyncEnd, Int16, 8),
     Row(HTotal, Int16, 10), Row(HSkew, Int16, 12), Row(VDisplay, Int16, 14), Row(VSyncStart, Int16, 16),
     Row(VSyncEnd, Int16, 18), Row(VTotal, Int16, 20), Row(VScan, Int16, 22), Row(VRefresh, Int32, 24),
     Row(Flags, Int32, 28), Row(Type, Int32, 32), Row(ModeName, Chars(32), 36)]

  const CONNECTOR: seq<Row> :=
    [Row(EncodersPtr, Int64, 0), Row(ModesPtr, Int64, 8), Row(PropsPtr, Int64, 16),
     Row(PropValuesPtr, Int64, 24), Row(CountModes, Int32, 32), Row(CountProps, Int32, 36),
     Row(CountEncoders, Int32, 40), Row(EncoderIdMember, Int32, 44), Row(ConnectorId, Int32, 48),
     Row(ConnectorType, Int32, 52), Row(ConnectorTypeId, Int32, 56), Row(Connection, Int32, 60),
     Row(MmWidth, Int32, 64), Row(MmHeight, Int32, 68), Row(Subpixel, Int32, 72)]

  const CRTC: seq<Row> :=
    [Row(SetConnectorsPtr, Int64, 0), Row(CountConnectors, Int32, 8), Row(CrtcIdMember, Int32, 12),
     Row(FbId, Int32, 16), Row(X, Int32, 20), Row(Y, Int32, 24), Row(GammaSize, Int32, 28),
     Row(ModeValid, Int32, 32), Row(Mode, Aggregate(68, 4), 36)]

  const DRM_VERSION: seq<Row> :=
    [Row(VersionMajor, CInt, 0), Row(VersionMinor, CInt, 4), Row(VersionPatchlevel, CInt, 8),
     Row(NameLen, SizeT, 16), Row(NamePtr, CharPtr, 24), Row(DateLen, SizeT, 32), Row(DatePtr, CharPtr, 40),
     Row(DescLen, SizeT, 48), Row(DescPtr, CharPtr, 56)]

  const DRM_UNIQUE: seq<Row> :=
    [Row(UniqueLen, SizeT, 0), Row(Unique, CharPtr, 8)]

  const DRM_SET_VERSION: seq<Row> :=
    [Row(DiMajor, CInt, 0), Row(DiMinor, CInt, 4), Row(DdMajor, CInt, 8), Row(DdMinor, CInt, 12)]

  const ENCODER: seq<Row> :=
    [Row(EncoderIdMember, Int32, 0), Row(EncoderType, Int32, 4), Row(CrtcIdMember, Int32, 8),
     Row(PossibleCrtcs, Int32, 12), Row(PossibleClones, Int32, 16)]

  const DRM_GET_CAP: seq<Row> :=
    [Row(Capability, Int64, 0), Row(CapabilityValue, Int64, 8)]

  const CRTC_PAGE_FLIP: seq<Row> :=
    [Row(CrtcIdMember, Int32, 0), Row(FbId, Int32, 4), Row(Flags, Int32, 8), Row(Reserved, Int32, 12),
     Row(UserData, Int64, 16)]

  const RADEON_CS: seq<Row> :=
    [Row(NumChunks, Int32, 0), Row(CsId, Int32, 4), Row(Chunks, Int64, 8), Row(GartLimit, Int64, 16),
     Row(VramLimit, Int64, 24)]

  const RADEON_CS_CHUNK: seq<Row> :=
    [Row(ChunkId, Int32, 0), Row(LengthDw, Int32, 4), Row(ChunkData, Int64, 8)]

  const RADEON_INFO: seq<Row> :=
    [Row(RequestMember, Int32, 0), Row(Pad, Int32, 4), Row(InfoValue, Int64, 8)]

  // ----- the rule keeps members apart -----

  lemma {:induction false} Ordered(rows: seq<Row>, i: nat, j: nat)
    requires LaidOut(rows) && i < j < |rows|
    ensures EndOf(rows[i]) <= rows[j].offset
    decreases j
  {
    hide Aligned, Alignment, Size;
    assert Follows(rows, j);
    if i < j - 1 {
      Ordered(rows, i, j - 1);
    }
  }

  /** In any struct members are aligned, lie in the struct and do not overlap. */
  lemma MembersDisjoint(rows: seq<Row>, size: nat, i: nat, j: nat)
    requires LaidOut(rows) && SizeIs(rows, size) && i < j < |rows|
    ensures EndOf(rows[i]) <= rows[j].offset && EndOf(rows[j]) <= size
    ensures rows[i].offset % Alignment(rows[i].ctype) == 0 && rows[j].offset % Alignment(rows[j].ctype) == 0
  {
    hide Aligned, Alignment, Size, EndOf, Strictest;
    assert Follows(rows, i) && Follows(rows, j);
    Ordered(rows, i, j);
    if j < |rows| - 1 {
      Ordered(rows, j, |rows| - 1);
      EndBehind(rows[|rows| - 1]);
    }
  }

  lemma EndBehind(r: Row)
    ensures EndOf(r) >= r.offset
  {
  }

  // ----- the sizes and offsets used elsewhere -----

  lemma CardResLayout()
    ensures LaidOut(CARD_RES) && SizeIs(CARD_RES, 64)
  {
    assert Alignment(CARD_RES[0].ctype) == 8;
    assert Strictest(CARD_RES, 8);
  }

  lemma ModeinfoRows()
    ensures LaidOut(MODEINFO)
  {
    assert Follows(MODEINFO, 0) && Follows(MODEINFO, 1) && Follows(MODEINFO, 2);
    assert Follows(MODEINFO, 3) && Follows(MODEINFO, 4) && Follows(MODEINFO, 5);
    assert Follows(MODEINFO, 6) && Follows(MODEINFO, 7) && Follows(MODEINFO, 8);
    assert Follows(MODEINFO, 9) && Follows(MODEINFO, 10) && Follows(MODEINFO, 11);
    assert Follows(MODEINFO, 12) && Follows(MODEINFO, 13) && Follows(MODEINFO, 14);
    forall i | 0 <= i < 15
      ensures Follows(MODEINFO, i)
    {
      hide Follows;
    }
  }

  lemma ModeinfoLayout()
    ensures LaidOut(MODEINFO) && SizeIs(MODEINFO, 68) && Strictest(MODEINFO, 4)
  {
    ModeinfoRows();
    assert Alignment(MODEINFO[0].ctype) == 4;
    assert Strictest(MODEINFO, 4);
  }

  lemma ConnectorRows()
    ensures LaidOut(CONNECTOR)
  {
    assert Follows(CONNECTOR, 0) && Follows(CONNECTOR, 1) && Follows(CONNECTOR, 2);
    assert Follows(CONNECTOR, 3) && Follows(CONNECTOR, 4) && Follows(CONNECTOR, 5);
    assert Follows(CONNECTOR, 6) && Follows(CONNECTOR, 7) && Follows(CONNECTOR, 8);
    assert Follows(CONNECTOR, 9) && Follows(CONNECTOR, 10) && Follows(CONNECTOR, 11);
    assert Follows(CONNECTOR, 12) && Follows(CONNECTOR, 13) && Follows(CONNECTOR, 14);
    forall i | 0 <= i < 15
      ensures Follows(CONNECTOR, i)
    {
      hide Follows;
    }
  }

  lemma ConnectorLayout()
    ensures LaidOut(CONNECTOR) && SizeIs(CONNECTOR, 80)
  {
    ConnectorRows();
    assert Alignment(CONNECTOR[0].ctype) == 8;
    assert Strictest(CONNECTOR, 8);
  }

  lemma CrtcLayout()
    ensures LaidOut(CRTC) && SizeIs(CRTC, 104)
  {
    assert Alignment(CRTC[0].ctype) == 8;
    assert Strictest(CRTC, 8);
  }

  lemma DrmVersionLayout()
    ensures LaidOut(DRM_VERSION) && SizeIs(DRM_VERSION, 64)
  {
    assert Alignment(DRM_VERSION[3].ctype) == 8;
    assert Strictest(DRM_VERSION, 8);
  }

  lemma DrmUniqueLayout()
    ensures LaidOut(DRM_UNIQUE) && SizeIs(DRM_UNIQUE, 16)
  {
    assert Alignment(DRM_UNIQUE[0].ctype) == 8;
    assert Strictest(DRM_UNIQUE, 8);
  }

  lemma DrmSetVersionLayout()
    ensures LaidOut(DRM_SET_VERSION) && SizeIs(DRM_SET_VERSION, 16)
  {
    assert Alignment(DRM_SET_VERSION[0].ctype) == 4;
    assert Strictest(DRM_SET_VERSION, 4);
  }

  lemma EncoderLayout()
    ensures LaidOut(ENCODER) && SizeIs(ENCODER, 20)
  {
    assert Alignment(ENCODER[0].ctype) == 4;
    assert Strictest(ENCODER, 4);
  }

  lemma DrmGetCapLayout()
    ensures LaidOut(DRM_GET_CAP) && SizeIs(DRM_GET_CAP, 16)
  {
    assert Alignment(DRM_GET_CAP[0].ctype) == 8;
    assert Strictest(DRM_GET_CAP, 8);
  }

  lemma CrtcPageFlipLayout()
    ensures LaidOut(CRTC_PAGE_FLIP) && SizeIs(CRTC_PAGE_FLIP, 24)
  {
    assert Alignment(CRTC_PAGE_FLIP[4].ctype) == 8;
    assert Strictest(CRTC_PAGE_FLIP, 8);
  }

  lemma RadeonCsLayout()
    ensures LaidOut(RADEON_CS) && SizeIs(RADEON_CS, 32)
  {
    assert Alignment(RADEON_CS[2].ctype) == 8;
    assert Strictest(RADEON_CS, 8);
  }

  lemma RadeonCsChunkLayout()
    ensures LaidOut(RADEON_CS_CHUNK) && SizeIs(RADEON_CS_CHUNK, 16)
  {
    assert Alignment(RADEON_CS_CHUNK[2].ctype) == 8;
    assert Strictest(RADEON_CS_CHUNK, 8);
  }

  lemma RadeonInfoLayout()
    ensures LaidOut(RADEON_INFO) && SizeIs(RADEON_INFO, 16)
  {
    assert Alignment(RADEON_INFO[2].ctype) == 8;
    assert Strictest(RADEON_INFO, 8);
  }

  /** What a table row says of an array is what the struct says of its pointer and its count. */
  predicate ArrayIn(d: Decl, rows: seq<Row>, ptr: Member, count: Member, element: nat)
  {
    && d.place.Field? && Row(ptr, Int64, d.place.off) in rows
    && d.size.Counted? && Row(count, Int32, d.size.off) in rows
    && d.size.width == Size(Int32) && d.size.factor == element && d.limit == Some(element * 1024)
  }

  /** The same for chars, counted by a size_t. */
  predicate CharsIn(d: Decl, rows: seq<Row>, ptr: Member, len: Member)
  {
    && d.place.Field? && Row(ptr, CharPtr, d.place.off) in rows
    && d.size.Counted? && Row(len, SizeT, d.size.off) in rows
    && d.size.width == Size(SizeT) && d.size.factor == 1 && d.limit == Some(4096)
  }

  predicate RootIn(d: Decl, rows: seq<Row>)
  {
    d.place == InArg && d.size.Fixed? && SizeIs(rows, d.size.n)
  }

  lemma VersionTable()
    ensures var t := VERSION;
      && RootIn(t[0], DRM_VERSION) && CharsIn(t[1], DRM_VERSION, NamePtr, NameLen)
      && CharsIn(t[2], DRM_VERSION, DatePtr, DateLen) && CharsIn(t[3], DRM_VERSION, DescPtr, DescLen)
  {
    hide SizeIs;
    DrmVersionLayout();
  }

  lemma UniqueTable()
    ensures RootIn(GET_UNIQUE[0], DRM_UNIQUE) && CharsIn(GET_UNIQUE[1], DRM_UNIQUE, Unique, UniqueLen)
  {
    hide SizeIs;
    DrmUniqueLayout();
  }

  lemma ResourcesTable()
    ensures var t := GETRESOURCES;
      && RootIn(t[0], CARD_RES)
      && ArrayIn(t[1], CARD_RES, FbIdPtr, CountFbs, 4) && ArrayIn(t[2], CARD_RES, CrtcIdPtr, CountCrtcs, 4)
      && ArrayIn(t[3], CARD_RES, ConnectorIdPtr, CountConnectors, 4)
      && ArrayIn(t[4], CARD_RES, EncoderIdPtr, CountEncoders, 4)
  {
    hide SizeIs;
    CardResLayout();
  }

  /** The elements of the modes array are structs themselves. */
  lemma ConnectorTable()
    ensures var t := GETCONNECTOR;
      && RootIn(t[0], CONNECTOR)
      && ArrayIn(t[1], CONNECTOR, EncodersPtr, CountEncoders, 4)
      && ArrayIn(t[2], CONNECTOR, ModesPtr, CountModes, 68) && SizeIs(MODEINFO, 68)
      && ArrayIn(t[3], CONNECTOR, PropsPtr, CountProps, 4)
      && ArrayIn(t[4], CONNECTOR, PropValuesPtr, CountProps, 8)
  {
    hide SizeIs;
    ConnectorLayout();
    ModeinfoLayout();
  }

  lemma CrtcTable()
    ensures RootIn(GETCRTC[0], CRTC) && ArrayIn(GETCRTC[1], CRTC, SetConnectorsPtr, CountConnectors, 4)
    ensures Row(Mode, Aggregate(68, 4), 36) in CRTC && SizeIs(MODEINFO, 68) && Strictest(MODEINFO, 4)
  {
    hide SizeIs;
    CrtcLayout();
    ModeinfoLayout();
    assert CRTC[8] in CRTC;
  }

  lemma SingleTables()
    ensures RootIn(SET_VERSION[0], DRM_SET_VERSION) && RootIn(GETENCODER[0], ENCODER)
    ensures RootIn(GET_CAP[0], DRM_GET_CAP) && RootIn(PAGE_FLIP[0], CRTC_PAGE_FLIP)
  {
    hide SizeIs;
    DrmSetVersionLayout();
    EncoderLayout();
    DrmGetCapLayout();
    CrtcPageFlipLayout();
  }

  /** The fields of the render ioctls' structs are read where these rows say. */
  lemma RadeonTables(cs: RadeonCs.Cs, chunk: RadeonCs.Chunk, info: RadeonInfo.Info)
    ensures SizeIs(RADEON_CS, |cs|) && SizeIs(RADEON_CS_CHUNK, |chunk|) && SizeIs(RADEON_INFO, |info|)
    ensures exists n, p | Row(NumChunks, Int32, n) in RADEON_CS && Row(Chunks, Int64, p) in RADEON_CS ::
      n + 4 <= 32 && p + 8 <= 32 && RadeonCs.NumChunks(cs) == Get(cs, n, 4) && RadeonCs.ChunksPtr(cs) == Get(cs, p, 8)
    ensures exists n, p | Row(LengthDw, Int32, n) in RADEON_CS_CHUNK && Row(ChunkData, Int64, p) in RADEON_CS_CHUNK ::
      && n + 4 <= 16 && p + 8 <= 16
      && RadeonCs.LengthDw(chunk) == Get(chunk, n, 4) && RadeonCs.DataPtr(chunk) == Get(chunk, p, 8)
    ensures exists p | Row(InfoValue, Int64, p) in RADEON_INFO ::
      p + 8 <= 16 && RadeonInfo.ValuePtr(info) == Get(info, p, 8)
  {
    hide SizeIs, Get;
    RadeonCsLayout();
    RadeonCsChunkLayout();
    RadeonInfoLayout();
    assert Row(NumChunks, Int32, 0) == RADEON_CS[0] && Row(Chunks, Int64, 8) == RADEON_CS[2];
    assert Row(LengthDw, Int32, 4) == RADEON_CS_CHUNK[1] && Row(ChunkData, Int64, 8) == RADEON_CS_CHUNK[2];
    assert Row(InfoValue, Int64, 8) == RADEON_INFO[2];
  }
}
