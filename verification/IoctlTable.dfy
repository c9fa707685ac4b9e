/**
 The table of argument shapes: a root struct at the ioctl argument and arrays that
 pointer fields of the root lead to, each sized by a count field of the root.
 */
module IoctlTable {
  import opened Bytes
  import opened Options

  /** The identifiers of the table, and as many others as needed. */
  datatype Ident =
    | InargId | SetVersionId | UniqId | UniqStrId | VersionId | NameId | DateId | DescId | ResId | FbsId | CrtcsId
    | ConnectorsId | EncodersId | GetConnectorId | ModesId | PropsId | PropValuesId
    | EncoderId | CapId | CrtcId | FlipId
    | OtherId(n: nat)

  /** A pointer expression: the ioctl argument, or a 64-bit field of a loaded struct. */
  datatype Place = InArg | Field(struct: Ident, off: nat)

  /** A size expression: sizeof, or a count field times an element size, in 32 or 64 bits. */
  datatype Size =
    | Fixed(n: nat)
    | Counted(struct: Ident, off: nat, width: nat, factor: nat, wraps: bool)

  /** One table row: name, pointer, size, and the size of the declared array. */
  datatype Decl = Decl(name: Ident, place: Place, size: Size, limit: Option<nat>)

  function Dependency(p: Place): Ident
  {
    match p
    case InArg => InargId
    case Field(struct, _) => struct
  }

  predicate ArrayDecl(root: Decl, d: Decl)
  {
    && d.place.Field? && d.place.struct == root.name
    && d.size.Counted? && d.size.struct == root.name && d.size.width <= 8
    && d.limit.Some? && d.limit.value < TWO_TO_THE_32
    && root.size.Fixed?
    && d.place.off + 8 <= root.size.n
    && d.size.off + d.size.width <= root.size.n
  }

  /** A modeset entry with arguments: one root struct, any number of arrays sized from it. */
  predicate ModesetEntry(decls: seq<Decl>)
  {
    && |decls| > 0
    && decls[0].place == InArg && decls[0].size.Fixed? && decls[0].size.n > 0 && decls[0].limit == None
    && decls[0].name != InargId
    && (forall i | 0 < i < |decls| :: ArrayDecl(decls[0], decls[i]) && decls[i].name != InargId)
    && (forall i, j | 0 <= i < j < |decls| :: decls[i].name != decls[j].name)
  }

  predicate FieldsApart(off: nat, w: nat, off': nat, w': nat)
  {
    off + w <= off' || off' + w' <= off
  }

  /** Pointer fields do not overlap each other or a count field. */
  predicate FieldsDisjoint(decls: seq<Decl>)
    requires ModesetEntry(decls)
  {
    && (forall i, j | 0 < i < j < |decls| :: FieldsApart(decls[i].place.off, 8, decls[j].place.off, 8))
    && (forall i, j | 0 < i < |decls| && 0 < j < |decls| ::
          FieldsApart(decls[i].place.off, 8, decls[j].size.off, decls[j].size.width))
  }

  // ----- the entries -----

  function Root(name: Ident, size: nat): Decl { Decl(name, InArg, Fixed(size), None) }

  /** An array of u32-counted elements whose size is computed in int arithmetic. */
  function Array32(name: Ident, root: Ident, ptr: nat, count: nat, factor: nat, max: nat): Decl
  {
    Decl(name, Field(root, ptr), Counted(root, count, 4, factor, true), Some(factor * max))
  }

  /** A char array whose length field is a size_t. */
  function Chars(name: Ident, root: Ident, ptr: nat, len: nat): Decl
  {
    Decl(name, Field(root, ptr), Counted(root, len, 8, 1, false), Some(4096))
  }

  const SET_VERSION: seq<Decl> := [Root(SetVersionId, 16)]
  const GET_UNIQUE: seq<Decl> := [Root(UniqId, 16), Chars(UniqStrId, UniqId, 8, 0)]
  const VERSION: seq<Decl> :=
    [Root(VersionId, 64), Chars(NameId, VersionId, 24, 16), Chars(DateId, VersionId, 40, 32),
     Chars(DescId, VersionId, 56, 48)]
  const GETRESOURCES: seq<Decl> :=
    [Root(ResId, 64), Array32(FbsId, ResId, 0, 32, 4, 1024), Array32(CrtcsId, ResId, 8, 36, 4, 1024),
     Array32(ConnectorsId, ResId, 16, 40, 4, 1024), Array32(EncodersId, ResId, 24, 44, 4, 1024)]
  const GETCONNECTOR: seq<Decl> :=
    [Root(GetConnectorId, 80), Array32(EncodersId, GetConnectorId, 0, 40, 4, 1024),
     Decl(ModesId, Field(GetConnectorId, 8), Counted(GetConnectorId, 32, 4, 68, false), Some(68 * 1024)),
     Array32(PropsId, GetConnectorId, 16, 36, 4, 1024),
     Array32(PropValuesId, GetConnectorId, 24, 36, 8, 1024)]
  const GETENCODER: seq<Decl> := [Root(EncoderId, 20)]
  const GET_CAP: seq<Decl> := [Root(CapId, 16)]
  const GETCRTC: seq<Decl> := [Root(CrtcId, 104), Array32(ConnectorsId, CrtcId, 0, 8, 4, 1024)]
  const PAGE_FLIP: seq<Decl> := [Root(FlipId, 24)]

  const MODESET_ENTRIES: seq<seq<Decl>> :=
    [SET_VERSION, GET_UNIQUE, VERSION, GETRESOURCES, GETCONNECTOR, GETENCODER, GET_CAP, GETCRTC, PAGE_FLIP]

  predicate ValidEntry(decls: seq<Decl>)
  {
    ModesetEntry(decls) && FieldsDisjoint(decls)
  }

  /** Two arrays of one entry: distinct names, and pointer fields apart from all the fields. */
  predicate Compatible(d: Decl, e: Decl)
  {
    && d.name != e.name
    && d.place.Field? && e.place.Field? && d.size.Counted? && e.size.Counted?
    && FieldsApart(d.place.off, 8, e.place.off, 8)
    && FieldsApart(d.place.off, 8, e.size.off, e.size.width)
    && FieldsApart(e.place.off, 8, d.size.off, d.size.width)
  }

  predicate ArrayOf(root: Decl, d: Decl)
  {
    && root.place == InArg && root.size.Fixed? && root.size.n > 0 && root.limit == None && root.name != InargId
    && ArrayDecl(root, d) && d.name != InargId && d.name != root.name
    && FieldsApart(d.place.off, 8, d.size.off, d.size.width)
  }

  lemma ValidByParts(decls: seq<Decl>)
    requires |decls| > 1
    requires forall i | 0 < i < |decls| :: ArrayOf(decls[0], decls[i])
    requires forall i, j | 0 < i < j < |decls| :: Compatible(decls[i], decls[j])
    ensures ValidEntry(decls)
  {
    assert ArrayOf(decls[0], decls[1]);
    forall i, j | 0 < i < |decls| && 0 < j < |decls|
      ensures FieldsApart(decls[i].place.off, 8, decls[j].size.off, decls[j].size.width)
    {
      if i < j {
        assert Compatible(decls[i], decls[j]);
      } else if j < i {
        assert Compatible(decls[j], decls[i]);
      }
    }
  }

  lemma FourArrays(r: Decl, a: Decl, b: Decl, c: Decl, d: Decl)
    requires ArrayOf(r, a) && ArrayOf(r, b) && ArrayOf(r, c) && ArrayOf(r, d)
    requires Compatible(a, b) && Compatible(a, c) && Compatible(a, d)
    requires Compatible(b, c) && Compatible(b, d) && Compatible(c, d)
    ensures ValidEntry([r, a, b, c, d])
  {
    hide ArrayOf, Compatible, ValidEntry;
    ValidByParts([r, a, b, c, d]);
  }

  lemma ThreeArrays(r: Decl, a: Decl, b: Decl, c: Decl)
    requires ArrayOf(r, a) && ArrayOf(r, b) && ArrayOf(r, c)
    requires Compatible(a, b) && Compatible(a, c) && Compatible(b, c)
    ensures ValidEntry([r, a, b, c])
  {
    hide ArrayOf, Compatible, ValidEntry;
    ValidByParts([r, a, b, c]);
  }

  lemma OneArray(r: Decl, a: Decl)
    requires ArrayOf(r, a)
    ensures ValidEntry([r, a])
  {
    hide ArrayOf, Compatible, ValidEntry;
    ValidByParts([r, a]);
  }

  // Every modeset entry of the table is of the shape that the results below are about.

  lemma SingleStructsAreValid()
    ensures ValidEntry(SET_VERSION) && ValidEntry(GETENCODER) && ValidEntry(GET_CAP) && ValidEntry(PAGE_FLIP)
  {
  }

  lemma SingleArraysAreValid()
    ensures ValidEntry(GET_UNIQUE) && ValidEntry(GETCRTC)
  {
    hide ValidEntry;
    OneArray(Root(UniqId, 16), Chars(UniqStrId, UniqId, 8, 0));
    OneArray(Root(CrtcId, 104), Array32(ConnectorsId, CrtcId, 0, 8, 4, 1024));
  }

  lemma VersionIsValid()
    ensures ValidEntry(VERSION)
  {
    hide ValidEntry;
    ThreeArrays(Root(VersionId, 64), Chars(NameId, VersionId, 24, 16), Chars(DateId, VersionId, 40, 32),
                Chars(DescId, VersionId, 56, 48));
  }

  lemma GetResourcesIsValid()
    ensures ValidEntry(GETRESOURCES)
  {
    hide ValidEntry;
    FourArrays(Root(ResId, 64), Array32(FbsId, ResId, 0, 32, 4, 1024), Array32(CrtcsId, ResId, 8, 36, 4, 1024),
               Array32(ConnectorsId, ResId, 16, 40, 4, 1024), Array32(EncodersId, ResId, 24, 44, 4, 1024));
  }

  lemma GetConnectorIsValid()
    ensures ValidEntry(GETCONNECTOR)
  {
    hide ValidEntry;
    FourArrays(Root(GetConnectorId, 80), Array32(EncodersId, GetConnectorId, 0, 40, 4, 1024),
               Decl(ModesId, Field(GetConnectorId, 8), Counted(GetConnectorId, 32, 4, 68, false), Some(68 * 1024)),
               Array32(PropsId, GetConnectorId, 16, 36, 4, 1024),
               Array32(PropValuesId, GetConnectorId, 24, 36, 8, 1024));
  }

  /** So every modeset entry of the table has the shape. */
  lemma EntriesAreValid(decls: seq<Decl>)
    requires decls in MODESET_ENTRIES
    ensures ValidEntry(decls)
  {
    hide ValidEntry;
    SingleStructsAreValid();
    SingleArraysAreValid();
    VersionIsValid();
    GetResourcesIsValid();
    GetConnectorIsValid();
  }
}
