/** The domain strings that open every preimage, and why no two kinds of document share one. */
module Domains {
  import opened ByteStrings

  datatype Domain =
    | LeafV1 | LeafV2 | Pair | ReportV1 | ReportV2 | AnchorV1
    | AttestationV1 | ProvenanceV1 | PackV1 | CorpusV1 | EntityV1

  function DomainBytes(d: Domain): Bytes {
    match d
    case LeafV1 => Ascii("rocky-solvency-leaf-v1")
    case LeafV2 => Ascii("rocky-solvency-leaf-v2")
    case Pair => Ascii("rocky-solvency-node-v1")
    case ReportV1 => Ascii("rocky-solvency-report-v1")
    case ReportV2 => Ascii("rocky-solvency-report-v2")
    case AnchorV1 => Ascii("rocky-solvency-anchor-v1")
    case AttestationV1 => Ascii("rocky-solvency-attestation-v1")
    case ProvenanceV1 => Ascii("rocky-solvency-provenance-v1")
    case PackV1 => Ascii("rocky-solvency-pack-v1")
    case CorpusV1 => Ascii("rocky-solvency-corpus-v1")
    case EntityV1 => Ascii("rocky-solvency-entity-v1")
  }

  /** The first two letters after the common stem. */
  function Initials(d: Domain): (Byte, Byte) {
    match d
    case LeafV1 => (108, 101)
    case LeafV2 => (108, 101)
    case Pair => (110, 111)
    case ReportV1 => (114, 101)
    case ReportV2 => (114, 101)
    case AnchorV1 => (97, 110)
    case AttestationV1 => (97, 116)
    case ProvenanceV1 => (112, 114)
    case PackV1 => (112, 97)
    case CorpusV1 => (99, 111)
    case EntityV1 => (101, 110)
  }

  lemma InitialsShow(d: Domain)
    ensures |DomainBytes(d)| >= 22
    ensures (DomainBytes(d)[15], DomainBytes(d)[16]) == Initials(d)
  {
    hide DomainBytes;
    if d.LeafV1? || d.LeafV2? || d.Pair? || d.ReportV1? || d.ReportV2? {
      TreeInitials(d);
    } else {
      DocumentInitials(d);
    }
  }

  lemma TreeInitials(d: Domain)
    requires d.LeafV1? || d.LeafV2? || d.Pair? || d.ReportV1? || d.ReportV2?
    ensures |DomainBytes(d)| >= 22
    ensures (DomainBytes(d)[15], DomainBytes(d)[16]) == Initials(d)
  {
  }

  lemma DocumentInitials(d: Domain)
    requires !(d.LeafV1? || d.LeafV2? || d.Pair? || d.ReportV1? || d.ReportV2?)
    ensures |DomainBytes(d)| >= 22
    ensures (DomainBytes(d)[15], DomainBytes(d)[16]) == Initials(d)
  {
  }

  lemma VersionsShow()
    ensures DomainBytes(LeafV1)[21] == DomainBytes(ReportV1)[23] == 49
    ensures DomainBytes(LeafV2)[21] == DomainBytes(ReportV2)[23] == 50
  {
  }

  /**
   No domain string is a prefix of another, so a preimage of one kind is never one of another: a
   signature over an attestation can stand in for no report, and so on for every pair.
   */
  lemma DomainsSeparate(d: Domain, x: Bytes, e: Domain, y: Bytes)
    requires DomainBytes(d) + x == DomainBytes(e) + y
    ensures d == e && x == y
  {
    hide DomainBytes;
    InitialsShow(d);
    InitialsShow(e);
    VersionsShow();
    var s, t := DomainBytes(d) + x, DomainBytes(e) + y;
    assert (s[15], s[16]) == Initials(d) && (t[15], t[16]) == Initials(e);
    assert d == e by {
      if Initials(d) == Initials(LeafV1) {
        assert s[21] == DomainBytes(d)[21] && t[21] == DomainBytes(e)[21];
      } else if Initials(d) == Initials(ReportV1) {
        ReportLength();
        assert s[23] == DomainBytes(d)[23] && t[23] == DomainBytes(e)[23];
      }
    }
    SplitAt(DomainBytes(d), x, DomainBytes(e), y);
  }

  lemma ReportLength()
    ensures |DomainBytes(ReportV1)| == |DomainBytes(ReportV2)| == 24
  {
  }
}
