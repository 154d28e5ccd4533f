// RFC 6762 section 8.2 compares rdata in its uncompressed wire form; the comparison of the daemon takes
// names as text. Where the two orders differ.
module WireOrder {
  import opened Bytes
  import opened DnsName
  import opened DnsRecords
  import opened Wire
  import opened Tiebreak

  /** The uncompressed wire form. */
  function RawRData(rdata: RData): bytes {
    EncodeRData(map[], 0, rdata).out
  }

  function Uncompressed(labels: seq<bytes>): bytes {
    if labels == [] then [0] else Piece(labels[0]) + Uncompressed(labels[1..])
  }

  lemma {:induction false} NothingToCompress(names: NameTable, pos: nat, labels: seq<bytes>)
    requires labels != [] ==> forall k <- names :: |k| > |Join(labels)|
    ensures EncodeLabels(names, pos, labels).out == Uncompressed(labels)
    decreases labels
  {
    hide Piece;
    if labels != [] {
      assert labels[1..] != [] ==> |Join(labels)| > |Join(labels[1..])|;
      NothingToCompress(names[Join(labels) := pos % 0x1_0000], pos + |Piece(labels[0])|, labels[1..]);
    }
  }

  /** Labels as the wire orders them: a shorter label comes first. */
  function CompareLabels(a: seq<bytes>, b: seq<bytes>): Ordering {
    if a == [] then if b == [] then Equal else Less
    else if b == [] then Greater
    else CompareNat(|a[0]|, |b[0]|).Then(CompareBytes(a[0], b[0]).Then(CompareLabels(a[1..], b[1..])))
  }

  predicate OnTheWire(labels: seq<bytes>) {
    forall l <- labels :: 0 < |l| <= MAX_LABEL_BYTES
  }

  lemma UncompressedFirst(labels: seq<bytes>)
    requires OnTheWire(labels)
    ensures Uncompressed(labels) != []
    ensures Uncompressed(labels)[0] == if labels == [] then 0 else |labels[0]|
  {
    if labels != [] { assert labels[0] in labels; }
  }

  lemma {:induction false} UncompressedOrder(a: seq<bytes>, b: seq<bytes>)
    requires OnTheWire(a) && OnTheWire(b)
    ensures CompareBytes(Uncompressed(a), Uncompressed(b)) == CompareLabels(a, b)
  {
    hide CompareBytes, Piece;
    UncompressedFirst(a);
    UncompressedFirst(b);
    if a != [] { assert a[0] in a; }
    if b != [] { assert b[0] in b; }
    if a == [] && b == [] {
      BytesAntisymmetric([0], [0]);
    } else if a == [] || b == [] || |a[0]| != |b[0]| {
      FirstByte(Uncompressed(a), Uncompressed(b));
    } else {
      assert (forall l <- a[1..] :: l in a) && (forall l <- b[1..] :: l in b);
      UncompressedOrder(a[1..], b[1..]);
      PrefixCompares(Piece(a[0]), Piece(b[0]), Uncompressed(a[1..]), Uncompressed(b[1..]));
      SameLengthPieces(a[0], b[0]);
    }
  }

  lemma FirstByte(a: bytes, b: bytes)
    requires a != [] && b != [] && a[0] != b[0]
    ensures CompareBytes(a, b) == CompareNat(a[0], b[0])
  {
  }

  lemma SameLengthPieces(x: bytes, y: bytes)
    requires |x| == |y|
    ensures CompareBytes(Piece(x), Piece(y)) == CompareBytes(x, y)
  {
    assert Piece(x)[1..] == x && Piece(y)[1..] == y;
  }

  function CompareNames(x: bytes, y: bytes): Ordering {
    CompareLabels(Labels(x), Labels(y))
  }

  /** The comparison of the daemon with the names in wire order. */
  function WireCompare(a: RData, b: RData): Ordering
    requires a.Type() == b.Type()
  {
    match (a, b)
    case (Pointer(_, x), Pointer(_, y)) => CompareNames(x, y)
    case (Srv(p, w, q, h), Srv(p', w', q', h')) =>
      CompareBytes(Be16(p), Be16(p')).Then(
      CompareBytes(Be16(w), Be16(w')).Then(
      CompareBytes(Be16(q), Be16(q')).Then(CompareNames(h, h'))))
    case _ => CompareRData(a, b)
  }

  lemma RawName(name: bytes)
    requires !NameTooLong(name)
    ensures EncodeName(map[], 0, name).out == Uncompressed(Labels(name)) && OnTheWire(Labels(name))
    ensures EncodeName(map[], 6, name).out == Uncompressed(Labels(name))
  {
    NothingToCompress(map[], 0, Labels(name));
    NothingToCompress(map[], 6, Labels(name));
    LabelsNotEmpty(StripDot(name), []);
  }

  /** The order of the RFC, for everything that can be sent. */
  lemma RawOrder(a: RData, b: RData)
    requires a.Type() == b.Type() && !RDataTooLong(a) && !RDataTooLong(b)
    ensures CompareBytes(RawRData(a), RawRData(b)) == WireCompare(a, b)
  {
    hide CompareBytes, Be16, EncodeName, Uncompressed, Labels, NameTooLong, CompareLabels;
    match (a, b)
    case (Pointer(_, x), Pointer(_, y)) =>
      RawName(x);
      RawName(y);
      UncompressedOrder(Labels(x), Labels(y));
    case (Srv(p, w, q, h), Srv(p', w', q', h')) =>
      RawName(h);
      RawName(h');
      UncompressedOrder(Labels(h), Labels(h'));
      PrefixCompares(Be16(p) + Be16(w) + Be16(q), Be16(p') + Be16(w') + Be16(q'),
                     Uncompressed(Labels(h)), Uncompressed(Labels(h')));
      PrefixCompares(Be16(p) + Be16(w), Be16(p') + Be16(w'), Be16(q), Be16(q'));
      PrefixCompares(Be16(p), Be16(p'), Be16(w), Be16(w'));
    case _ => RDataIsPayload(a, b);
  }

  /** The names that decide, if everything in front of them is equal. */
  predicate NamesDecide(a: RData, b: RData)
    requires a.Type() == b.Type()
  {
    match (a, b)
    case (Pointer(_, _), Pointer(_, _)) => true
    case (Srv(p, w, q, _), Srv(p', w', q', _)) => p == p' && w == w' && q == q'
    case _ => false
  }

  function NameOf(rdata: RData): bytes
    requires rdata.Pointer? || rdata.Srv?
  {
    match rdata
    case Pointer(_, alias) => alias
    case Srv(_, _, _, host) => host
  }

  /** Text and wire agree on two lists of labels: in the first pair that differs, lengths are equal or decide alike. */
  predicate SameOrder(a: seq<bytes>, b: seq<bytes>) {
    if a == [] || b == [] then true
    else if a[0] == b[0] then SameOrder(a[1..], b[1..])
    else |a[0]| == |b[0]| || CompareBytes(a[0] + [DOT], b[0] + [DOT]) == CompareNat(|a[0]|, |b[0]|)
  }

  predicate NoDots(labels: seq<bytes>) {
    forall l <- labels :: DOT !in l && l != []
  }

  /** Two labels that differ do so before both have come to their dots. */
  lemma {:induction false} DotsDecide(x: bytes, y: bytes, s: bytes, t: bytes)
    requires x != y && DOT !in x && DOT !in y
    ensures CompareBytes(x + [DOT] + s, y + [DOT] + t) == CompareBytes(x + [DOT], y + [DOT]) != Equal
    ensures |x| == |y| ==> CompareBytes(x + [DOT], y + [DOT]) == CompareBytes(x, y)
  {
    var a, b := x + [DOT] + s, y + [DOT] + t;
    if x != [] && y != [] && x[0] == y[0] {
      assert x == [x[0]] + x[1..] && y == [y[0]] + y[1..];
      DotsDecide(x[1..], y[1..], s, t);
      assert a[1..] == x[1..] + [DOT] + s && b[1..] == y[1..] + [DOT] + t;
      assert (x + [DOT])[1..] == x[1..] + [DOT] && (y + [DOT])[1..] == y[1..] + [DOT];
    } else {
      if x != [] { assert x[0] in x; }
      if y != [] { assert y[0] in y; }
    }
  }

  lemma {:induction false} TextAgreesIff(a: seq<bytes>, b: seq<bytes>)
    requires NoDots(a) && NoDots(b)
    ensures CompareBytes(Text(a), Text(b)) == CompareLabels(a, b) <==> SameOrder(a, b)
  {
    hide CompareBytes;
    if a == [] || b == [] {
      NothingFirst(a, b);
    } else {
      assert a[0] in a && b[0] in b;
      if a[0] == b[0] {
        assert (forall l <- a[1..] :: l in a) && (forall l <- b[1..] :: l in b);
        TextAgreesIff(a[1..], b[1..]);
        PrefixCompares(a[0] + [DOT], b[0] + [DOT], Text(a[1..]), Text(b[1..]));
        BytesAntisymmetric(a[0] + [DOT], b[0] + [DOT]);
        BytesAntisymmetric(a[0], b[0]);
      } else {
        DotsDecide(a[0], b[0], Text(a[1..]), Text(b[1..]));
        BytesAntisymmetric(a[0], b[0]);
      }
    }
  }

  lemma NothingFirst(a: seq<bytes>, b: seq<bytes>)
    requires a == [] || b == []
    ensures CompareBytes(Text(a), Text(b)) == CompareLabels(a, b)
  {
  }

  /**
   * For any two records of one type that can be sent, the order of the daemon is that of the RFC exactly
   * if the names in them do not decide, or are in the same order as text and label by label.
   */
  lemma OrdersAgreeIff(a: RData, b: RData)
    requires a.Type() == b.Type() && !RDataTooLong(a) && !RDataTooLong(b)
    ensures CompareRData(a, b) == CompareBytes(RawRData(a), RawRData(b)) <==>
            (NamesDecide(a, b) ==> CompareBytes(NameOf(a), NameOf(b)) == CompareNames(NameOf(a), NameOf(b)))
    ensures NamesDecide(a, b) && Canonical(NameOf(a)) && Canonical(NameOf(b)) ==>
              (CompareRData(a, b) == CompareBytes(RawRData(a), RawRData(b)) <==>
                 SameOrder(Labels(NameOf(a)), Labels(NameOf(b))))
  {
    hide CompareBytes, Be16, CompareLabels, RawRData, Labels, Canonical, SameOrder;
    RawOrder(a, b);
    SameFields(a, b);
    if NamesDecide(a, b) && Canonical(NameOf(a)) && Canonical(NameOf(b)) {
      CanonicalNames(NameOf(a));
      CanonicalNames(NameOf(b));
      TextAgreesIff(Labels(NameOf(a)), Labels(NameOf(b)));
    }
  }

  lemma SameFields(a: RData, b: RData)
    requires a.Type() == b.Type()
    ensures a.Srv? ==>
              (NamesDecide(a, b) <==>
                 && CompareBytes(Be16(a.priority), Be16(b.priority)) == Equal
                 && CompareBytes(Be16(a.weight), Be16(b.weight)) == Equal
                 && CompareBytes(Be16(a.port), Be16(b.port)) == Equal)
  {
    if a.Srv? {
      hide CompareBytes;
      BytesAntisymmetric(Be16(a.priority), Be16(b.priority));
      BytesAntisymmetric(Be16(a.weight), Be16(b.weight));
      BytesAntisymmetric(Be16(a.port), Be16(b.port));
    }
  }

  lemma CanonicalNames(name: bytes)
    requires Canonical(name)
    ensures Text(Labels(name)) == name && NoDots(Labels(name))
  {
    CanonicalLabels(name);
    LabelsNotEmpty(StripDot(name), []);
  }

  // ----- Two hosts on which they disagree -----

  const LOCAL_LABEL: bytes := [108, 111, 99, 97, 108]

  /** Host names of two labels: `ab.local.` and `b.local.`. */
  function HostName(first: bytes): bytes {
    Text([first, LOCAL_LABEL])
  }

  lemma HostNameFacts(first: bytes)
    requires Plain(first) && |first| <= MAX_LABEL_BYTES
    ensures Labels(HostName(first)) == [first, LOCAL_LABEL] && Canonical(HostName(first))
    ensures !NameTooLong(HostName(first))
    ensures HostName(first) == first + [DOT, 108, 111, 99, 97, 108, DOT]
  {
    assert Plain(LOCAL_LABEL);
    TextRoundTrip([first, LOCAL_LABEL]);
    assert [first, LOCAL_LABEL][1..] == [LOCAL_LABEL] && [LOCAL_LABEL][1..] == [];
    assert Text([LOCAL_LABEL]) == LOCAL_LABEL + [DOT] + Text([]);
  }

  /**
   * The daemon takes the first for the earlier one, a peer that follows the RFC the second: whichever of
   * the two has which, either both yield or neither does.
   */
  lemma HostsInOtherOrder(priority: u16, weight: u16, port: u16)
    ensures var a, b := Srv(priority, weight, port, HostName([97, 98])), Srv(priority, weight, port, HostName([98]));
            && CompareRData(a, b) == Less && CompareBytes(RawRData(a), RawRData(b)) == Greater
  {
    hide RawRData, HostName, Labels;
    var a, b := Srv(priority, weight, port, HostName([97, 98])), Srv(priority, weight, port, HostName([98]));
    HostNameFacts([97, 98]);
    HostNameFacts([98]);
    RawOrder(a, b);
    SameFields(a, b);
    assert CompareBytes(HostName([97, 98]), HostName([98])) == Less;
  }
}
