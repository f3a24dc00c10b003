/** pkg/mapper/mapper.go:24-28 and 338-359: finding the ID of a taxonomy by its base64 suffix. */
module Taxonomy {
  import opened Strings
  import opened Base64

  const ORGANISATIONS := "ON"
  const PEOPLE := "PN"
  const AUTHORS := "Authors"
  const TOPICS := "Topics"
  const REGIONS := "GL"
  const SECTIONS := "Sections"

  /** The taxonomies the mapper looks for. */
  predicate IsTaxonomy(t: string) {
    t == ORGANISATIONS || t == PEOPLE || t == AUTHORS || t == TOPICS || t == REGIONS || t == SECTIONS
  }

  predicate IsAscii(s: string) { forall i :: 0 <= i < |s| ==> s[i] as int < 128 }

  /** []byte(s) of an ASCII string. */
  function Bytes(s: string): seq<Byte>
    requires IsAscii(s)
  {
    seq(|s|, i requires 0 <= i < |s| => s[i] as int)
  }

  function EncodedTaxonomy(taxonomy: string): string
    requires IsAscii(taxonomy)
  {
    Encode(Bytes(taxonomy))
  }

  /** The first ID that ends with the encoded taxonomy. */
  function CmrID(taxonomy: string, ids: seq<string>): Option<string>
    requires IsAscii(taxonomy)
  {
    if ids == [] then None
    else if HasSuffix(ids[0], EncodedTaxonomy(taxonomy)) then Some(ids[0])
    else CmrID(taxonomy, ids[1..])
  }

  function CmrIDWithFallback(taxonomy: string, ids: seq<string>): string
    requires IsAscii(taxonomy) && ids != []
  {
    match CmrID(taxonomy, ids)
    case Some(id) => id
    case None => if |ids| > 1 then ids[1] else ids[0]
  }

  /** getCmrID */
  method GetCmrID(taxonomy: string, annotationIDs: seq<string>) returns (id: string, found: bool)
    requires IsAscii(taxonomy)
    ensures found <==> exists i :: 0 <= i < |annotationIDs| && HasSuffix(annotationIDs[i], EncodedTaxonomy(taxonomy))
    ensures found ==>
              exists i :: 0 <= i < |annotationIDs| && id == annotationIDs[i]
                          && HasSuffix(id, EncodedTaxonomy(taxonomy))
                          && forall j :: 0 <= j < i ==> !HasSuffix(annotationIDs[j], EncodedTaxonomy(taxonomy))
    ensures CmrID(taxonomy, annotationIDs) == if found then Some(id) else None
    ensures !found ==> id == ""
  {
    var encodedTaxonomy := EncodedTaxonomy(taxonomy);
    for i := 0 to |annotationIDs|
      invariant forall j :: 0 <= j < i ==> !HasSuffix(annotationIDs[j], encodedTaxonomy)
      invariant CmrID(taxonomy, annotationIDs) == CmrID(taxonomy, annotationIDs[i..])
    {
      if HasSuffix(annotationIDs[i], encodedTaxonomy) {
        return annotationIDs[i], true;
      }
    }
    return "", false;
  }

  /** getCmrIDWithFallback: the IDs are never empty, so neither index is out of range. */
  method GetCmrIDWithFallback(taxonomy: string, annotationIDs: seq<string>) returns (id: string)
    requires IsAscii(taxonomy) && annotationIDs != []
    ensures id in annotationIDs && IsPick(EncodedTaxonomy(taxonomy), annotationIDs, id)
    ensures id == CmrIDWithFallback(taxonomy, annotationIDs)
  {
    PickIs(taxonomy, annotationIDs);
    var encodedTaxonomy := EncodedTaxonomy(taxonomy);
    for i := 0 to |annotationIDs|
      invariant CmrID(taxonomy, annotationIDs) == CmrID(taxonomy, annotationIDs[i..])
    {
      if HasSuffix(annotationIDs[i], encodedTaxonomy) {
        return annotationIDs[i];
      }
    }
    if |annotationIDs| > 1 {
      return annotationIDs[1];
    }
    return annotationIDs[0];
  }

  lemma {:induction false} CmrIDIsMember(taxonomy: string, ids: seq<string>)
    requires IsAscii(taxonomy)
    ensures CmrID(taxonomy, ids).Some? ==> CmrID(taxonomy, ids).value in ids
    ensures ids != [] ==> CmrIDWithFallback(taxonomy, ids) in ids
  {
    if ids != [] {
      CmrIDIsMember(taxonomy, ids[1..]);
    }
  }

  lemma TaxonomyFacts(t: string)
    requires IsTaxonomy(t)
    ensures IsAscii(t) && |t| >= 2
    ensures |t| == 2 || t == AUTHORS || t == TOPICS || t == SECTIONS
  {
  }

  // ----- the texts looked for -----

  lemma LoneGroup(t: seq<Byte>)
    requires 1 <= |t| <= 3
    ensures Encode(t) == Quad(t)
  {
    assert t[..FirstGroup(|t|)] == t && t[FirstGroup(|t|)..] == [];
    assert Encode(t[FirstGroup(|t|)..]) == [] && Quad(t) + [] == Quad(t);
  }

  lemma ThreeBytes(a: Byte, b: Byte, c: Byte, w: string)
    requires |w| == 4 && w[0] == Symbol(a / 4) && w[1] == Symbol(a % 4 * 16 + b / 16)
    requires w[2] == Symbol(b % 16 * 4 + c / 64) && w[3] == Symbol(c % 64)
    ensures Encode([a, b, c]) == w
  {
    LoneGroup([a, b, c]);
  }

  lemma TwoBytes(a: Byte, b: Byte, w: string)
    requires |w| == 4 && w[0] == Symbol(a / 4) && w[1] == Symbol(a % 4 * 16 + b / 16)
    requires w[2] == Symbol(b % 16 * 4) && w[3] == '='
    ensures Encode([a, b]) == w
  {
    LoneGroup([a, b]);
  }

  lemma OneByte(a: Byte, w: string)
    requires |w| == 4 && w[0] == Symbol(a / 4) && w[1] == Symbol(a % 4 * 16) && w[2] == w[3] == '='
    ensures Encode([a]) == w
  {
    LoneGroup([a]);
  }

  lemma OrganisationsText()
    ensures IsAscii("ON") && EncodedTaxonomy("ON") == "T04="
  {
    TwoBytes(79, 78, "T04=");
    assert Bytes("ON") == [79, 78];
  }

  lemma PeopleText()
    ensures IsAscii("PN") && EncodedTaxonomy("PN") == "UE4="
  {
    TwoBytes(80, 78, "UE4=");
    assert Bytes("PN") == [80, 78];
  }

  lemma AuthorsText()
    ensures IsAscii("Authors") && EncodedTaxonomy("Authors") == "QXV0aG9ycw=="
  {
    ThreeBytes(65, 117, 116, "QXV0");
    ThreeBytes(104, 111, 114, "aG9y");
    OneByte(115, "cw==");
    EncodeConcat([104, 111, 114], [115]);
    EncodeConcat([65, 117, 116], [104, 111, 114] + [115]);
    assert Bytes("Authors") == [65, 117, 116] + ([104, 111, 114] + [115]);
  }

  lemma TopicsText()
    ensures IsAscii("Topics") && EncodedTaxonomy("Topics") == "VG9waWNz"
  {
    ThreeBytes(84, 111, 112, "VG9w");
    ThreeBytes(105, 99, 115, "aWNz");
    EncodeConcat([84, 111, 112], [105, 99, 115]);
    assert Bytes("Topics") == [84, 111, 112] + [105, 99, 115];
  }

  lemma RegionsText()
    ensures IsAscii("GL") && EncodedTaxonomy("GL") == "R0w="
  {
    TwoBytes(71, 76, "R0w=");
    assert Bytes("GL") == [71, 76];
  }

  lemma SectionsText()
    ensures IsAscii("Sections") && EncodedTaxonomy("Sections") == "U2VjdGlvbnM="
  {
    ThreeBytes(83, 101, 99, "U2Vj");
    ThreeBytes(116, 105, 111, "dGlv");
    TwoBytes(110, 115, "bnM=");
    EncodeConcat([116, 105, 111], [110, 115]);
    EncodeConcat([83, 101, 99], [116, 105, 111] + [110, 115]);
    assert Bytes("Sections") == [83, 101, 99] + ([116, 105, 111] + [110, 115]);
  }

  /** The ends of IDs that the six lookups ask for. */
  lemma SuffixTexts()
    ensures IsAscii(ORGANISATIONS) && EncodedTaxonomy(ORGANISATIONS) == "T04="
    ensures IsAscii(PEOPLE) && EncodedTaxonomy(PEOPLE) == "UE4="
    ensures IsAscii(AUTHORS) && EncodedTaxonomy(AUTHORS) == "QXV0aG9ycw=="
    ensures IsAscii(TOPICS) && EncodedTaxonomy(TOPICS) == "VG9waWNz"
    ensures IsAscii(REGIONS) && EncodedTaxonomy(REGIONS) == "R0w="
    ensures IsAscii(SECTIONS) && EncodedTaxonomy(SECTIONS) == "U2VjdGlvbnM="
  {
    OrganisationsText();
    PeopleText();
    AuthorsText();
    TopicsText();
    RegionsText();
    SectionsText();
  }

  /** `id` is the first of the IDs that ends with `suffix`. */
  predicate IsFirstEnding(suffix: string, ids: seq<string>, id: string) {
    exists i :: 0 <= i < |ids| && ids[i] == id && HasSuffix(id, suffix) &&
                forall j :: 0 <= j < i ==> !HasSuffix(ids[j], suffix)
  }

  predicate NoneEnds(suffix: string, ids: seq<string>) { forall i :: 0 <= i < |ids| ==> !HasSuffix(ids[i], suffix) }

  lemma {:induction false} CmrIDIs(taxonomy: string, ids: seq<string>)
    requires IsAscii(taxonomy)
    ensures match CmrID(taxonomy, ids)
            case Some(id) => IsFirstEnding(EncodedTaxonomy(taxonomy), ids, id)
            case None => NoneEnds(EncodedTaxonomy(taxonomy), ids)
  {
    if ids != [] && !HasSuffix(ids[0], EncodedTaxonomy(taxonomy)) {
      CmrIDIs(taxonomy, ids[1..]);
      if CmrID(taxonomy, ids).Some? {
        var id := CmrID(taxonomy, ids).value;
        var i :| 0 <= i < |ids[1..]| && ids[1..][i] == id &&
                 forall j :: 0 <= j < i ==> !HasSuffix(ids[1..][j], EncodedTaxonomy(taxonomy));
        assert ids[i + 1] == id;
        forall j | 0 <= j < i + 1 ensures !HasSuffix(ids[j], EncodedTaxonomy(taxonomy)) {
          assert j > 0 ==> ids[j] == ids[1..][j - 1];
        }
      } else {
        forall j | 0 <= j < |ids| ensures !HasSuffix(ids[j], EncodedTaxonomy(taxonomy)) {
          assert j > 0 ==> ids[j] == ids[1..][j - 1];
        }
      }
    }
  }

  /** The first ID that ends with `suffix`; without one the second ID, and without a second the first. */
  predicate IsPick(suffix: string, ids: seq<string>, id: string)
    requires ids != []
  {
    IsFirstEnding(suffix, ids, id) || (NoneEnds(suffix, ids) && id == if |ids| > 1 then ids[1] else ids[0])
  }

  lemma PickIs(taxonomy: string, ids: seq<string>)
    requires IsAscii(taxonomy) && ids != []
    ensures IsPick(EncodedTaxonomy(taxonomy), ids, CmrIDWithFallback(taxonomy, ids))
  {
    CmrIDIs(taxonomy, ids);
  }

  /** No taxonomy is a whole-group suffix of another. */
  lemma TaxonomiesApart(t: string, w: string)
    requires IsTaxonomy(t) && IsTaxonomy(w)
    ensures HasSuffix(t, w) && (|t| - |w|) % 3 == 0 ==> t == w
  {
    SuffixChars(t, w);
  }

  lemma BytesSuffix(t: string, w: string)
    requires IsAscii(t) && IsAscii(w)
    ensures HasSuffix(Bytes(t), Bytes(w)) ==> HasSuffix(t, w)
  {
    if HasSuffix(Bytes(t), Bytes(w)) {
      SuffixChars(Bytes(t), Bytes(w));
      var cut := |t| - |w|;
      forall i | 0 <= i < |w| ensures t[cut..][i] == w[i] {
        assert Bytes(t)[cut + i] == Bytes(w)[i];
        assert t[cut + i] as int == w[i] as int;
      }
    }
  }

  /** On a TME ID each lookup matches its own taxonomy and no other. */
  lemma LookupMatchesOwnTaxonomy(p: string, t: string, w: string)
    requires IsTaxonomy(t) && IsTaxonomy(w)
    ensures IsAscii(t) && IsAscii(w)
    ensures HasSuffix(p + "-" + EncodedTaxonomy(t), EncodedTaxonomy(w)) <==> t == w
  {
    TaxonomyFacts(t);
    TaxonomyFacts(w);
    IdSuffixExact(p, Bytes(t), Bytes(w));
    BytesSuffix(t, w);
    TaxonomiesApart(t, w);
  }

  predicate IsLowerHexOrDash(c: char) { '0' <= c <= '9' || 'a' <= c <= 'f' || c == '-' }

  /** A canonical UUID in lower case is never taken for a TME ID. */
  lemma LookupSkipsUuids(id: string, t: string)
    requires IsTaxonomy(t)
    requires forall i :: 0 <= i < |id| ==> IsLowerHexOrDash(id[i])
    ensures IsAscii(t) && !HasSuffix(id, EncodedTaxonomy(t))
  {
    TaxonomyFacts(t);
    var e := EncodedTaxonomy(t);
    EncodeLength(Bytes(t));
    assert e[0] == Symbol(Bytes(t)[0] / 4);
    assert 'A' <= e[0] <= 'Z' by {
      assert Bytes(t)[0] == t[0] as int;
      assert 'A' <= t[0] <= 'Z';
    }
    SuffixChars(id, e);
    assert !IsLowerHexOrDash(e[0]);
  }

  /** A TME ID as the concordance service writes it. */
  datatype TmeID = TmeID(prefix: string, taxonomy: string)
  {
    function Text(): string
      requires IsAscii(taxonomy)
    {
      prefix + "-" + EncodedTaxonomy(taxonomy)
    }
  }

  function Texts(tmes: seq<TmeID>): seq<string>
    requires forall i :: 0 <= i < |tmes| ==> IsAscii(tmes[i].taxonomy)
  {
    if tmes == [] then [] else [tmes[0].Text()] + Texts(tmes[1..])
  }

  function FirstOfTaxonomy(tmes: seq<TmeID>, w: string): Option<TmeID> {
    if tmes == [] then None else if tmes[0].taxonomy == w then Some(tmes[0]) else FirstOfTaxonomy(tmes[1..], w)
  }

  lemma {:induction false} LookupAmongTmeIDs(tmes: seq<TmeID>, w: string)
    requires IsTaxonomy(w) && forall i :: 0 <= i < |tmes| ==> IsTaxonomy(tmes[i].taxonomy) && IsAscii(tmes[i].taxonomy)
    ensures IsAscii(w)
    ensures CmrID(w, Texts(tmes)) ==
            match FirstOfTaxonomy(tmes, w)
            case Some(t) => if IsAscii(t.taxonomy) then Some(t.Text()) else None
            case None => None
  {
    TaxonomyFacts(w);
    if tmes != [] {
      LookupMatchesOwnTaxonomy(tmes[0].prefix, tmes[0].taxonomy, w);
      LookupAmongTmeIDs(tmes[1..], w);
      assert Texts(tmes)[1..] == Texts(tmes[1..]);
    }
  }

  /** After a canonical UUID, the lookup returns the first TME ID of the taxonomy asked for. */
  lemma LookupFindsTaxonomy(uuid: string, tmes: seq<TmeID>, w: string)
    requires forall i :: 0 <= i < |uuid| ==> IsLowerHexOrDash(uuid[i])
    requires IsTaxonomy(w) && forall i :: 0 <= i < |tmes| ==> IsTaxonomy(tmes[i].taxonomy) && IsAscii(tmes[i].taxonomy)
    ensures IsAscii(w)
    ensures CmrID(w, [uuid] + Texts(tmes)) ==
            match FirstOfTaxonomy(tmes, w)
            case Some(t) => if IsAscii(t.taxonomy) then Some(t.Text()) else None
            case None => None
  {
    LookupSkipsUuids(uuid, w);
    LookupAmongTmeIDs(tmes, w);
    assert ([uuid] + Texts(tmes))[1..] == Texts(tmes);
  }
}
