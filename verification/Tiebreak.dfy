// Which of two hosts that probe for the same name at the same time has to yield.
module Tiebreak {
  import opened Bytes
  import opened DnsRecords

  datatype Ordering = Less | Equal | Greater {
    function Flip(): Ordering {
      match this
      case Less => Greater
      case Equal => Equal
      case Greater => Less
    }

    function Then(next: Ordering): Ordering {
      if this == Equal then next else this
    }
  }

  function CompareNat(a: nat, b: nat): Ordering {
    if a < b then Less else if a == b then Equal else Greater
  }

  function CompareBytes(a: bytes, b: bytes): Ordering {
    if a == [] then if b == [] then Equal else Less
    else if b == [] then Greater
    else CompareNat(a[0], b[0]).Then(CompareBytes(a[1..], b[1..]))
  }

  function CompareRData(a: RData, b: RData): Ordering {
    match (a, b)
    case (Addr4(x, _), Addr4(y, _)) => CompareBytes(x, y)
    case (Addr6(x, _), Addr6(y, _)) => CompareBytes(x, y)
    case (Addr4(_, _), Addr6(_, _)) => Less
    case (Pointer(_, x), Pointer(_, y)) => CompareBytes(x, y)
    case (Srv(p, w, q, h), Srv(p', w', q', h')) =>
      CompareBytes(Be16(p), Be16(p')).Then(
      CompareBytes(Be16(w), Be16(w')).Then(
      CompareBytes(Be16(q), Be16(q')).Then(CompareBytes(h, h'))))
    case (Txt(x), Txt(y)) => CompareBytes(x, y)
    case _ => Greater
  }

  /** Class, then type, then rdata. */
  function Compare(a: Record, b: Record): Ordering {
    CompareNat(a.rrclass, b.rrclass).Then(
    CompareNat(a.rdata.Type().Code(), b.rdata.Type().Code()).Then(CompareRData(a.rdata, b.rdata)))
  }

  /** Pairwise up to the first difference; then the longer list is later. */
  function CompareLists(a: seq<Record>, b: seq<Record>): Ordering {
    if a == [] then if b == [] then Equal else Less
    else if b == [] then Greater
    else Compare(a[0], b[0]).Then(CompareLists(a[1..], b[1..]))
  }

  /** The rdata as the bytes that the comparison goes by: names as text, not in their wire form. */
  function Payload(rdata: RData): bytes {
    match rdata
    case Addr4(ip, _) => ip
    case Addr6(ip, _) => ip
    case Pointer(_, alias) => alias
    case Srv(p, w, q, h) => Be16(p) + Be16(w) + Be16(q) + h
    case Txt(text) => text
  }

  lemma {:induction false} BytesAntisymmetric(a: bytes, b: bytes)
    ensures CompareBytes(b, a) == CompareBytes(a, b).Flip()
    ensures CompareBytes(a, b) == Equal <==> a == b
  {
    if a != [] && b != [] {
      BytesAntisymmetric(a[1..], b[1..]);
      assert a == [a[0]] + a[1..] && b == [b[0]] + b[1..];
    }
  }

  lemma {:induction false} BytesTransitive(a: bytes, b: bytes, c: bytes)
    requires CompareBytes(a, b) != Greater && CompareBytes(b, c) != Greater
    ensures CompareBytes(a, c) == CompareBytes(a, b).Then(CompareBytes(b, c))
  {
    if a != [] && b != [] && c != [] && a[0] == b[0] == c[0] {
      BytesTransitive(a[1..], b[1..], c[1..]);
    } else if a != [] && b != [] && a[0] == b[0] {
      BytesAntisymmetric(a[1..], b[1..]);
    }
  }

  lemma {:induction false} PrefixCompares(p: bytes, q: bytes, a: bytes, b: bytes)
    requires |p| == |q|
    ensures CompareBytes(p + a, q + b) == CompareBytes(p, q).Then(CompareBytes(a, b))
  {
    if p == [] {
      assert p + a == a && q + b == b;
    } else {
      PrefixCompares(p[1..], q[1..], a, b);
      assert (p + a)[1..] == p[1..] + a && (q + b)[1..] == q[1..] + b;
    }
  }

  /** Within one type the comparison is that of these bytes. */
  lemma RDataIsPayload(a: RData, b: RData)
    requires a.Type() == b.Type()
    ensures CompareRData(a, b) == CompareBytes(Payload(a), Payload(b))
  {
    if a.Srv? {
      hide CompareBytes, Be16;
      var x, y := Be16(a.priority) + Be16(a.weight) + Be16(a.port), Be16(b.priority) + Be16(b.weight) + Be16(b.port);
      PrefixCompares(x, y, a.host, b.host);
      PrefixCompares(Be16(a.priority) + Be16(a.weight), Be16(b.priority) + Be16(b.weight), Be16(a.port), Be16(b.port));
      PrefixCompares(Be16(a.priority), Be16(b.priority), Be16(a.weight), Be16(b.weight));
    }
  }

  /** What tiebreaking sees of a record. */
  datatype Key = Key(rrclass: nat, code: nat, payload: bytes)

  function KeyOf(r: Record): Key {
    Key(r.rrclass, r.rdata.Type().Code(), Payload(r.rdata))
  }

  function Keys(rs: seq<Record>): seq<Key> {
    if rs == [] then [] else [KeyOf(rs[0])] + Keys(rs[1..])
  }

  lemma CompareIsKeyOrder(a: Record, b: Record)
    ensures Compare(a, b) == CompareNat(a.rrclass, b.rrclass).Then(
                             CompareNat(KeyOf(a).code, KeyOf(b).code).Then(
                             CompareBytes(KeyOf(a).payload, KeyOf(b).payload)))
  {
    hide CompareRData, CompareBytes, Payload;
    if KeyOf(a).code == KeyOf(b).code {
      assert FromCode(KeyOf(a).code) == Some(a.rdata.Type()) && FromCode(KeyOf(b).code) == Some(b.rdata.Type());
      RDataIsPayload(a.rdata, b.rdata);
    }
  }

  lemma CompareAntisymmetric(a: Record, b: Record)
    ensures Compare(b, a) == Compare(a, b).Flip()
    ensures Compare(a, b) == Equal <==> KeyOf(a) == KeyOf(b)
  {
    hide Compare, CompareBytes, Payload;
    CompareIsKeyOrder(a, b);
    CompareIsKeyOrder(b, a);
    BytesAntisymmetric(Payload(a.rdata), Payload(b.rdata));
  }

  lemma CompareTransitive(a: Record, b: Record, c: Record)
    requires Compare(a, b) != Greater && Compare(b, c) != Greater
    ensures Compare(a, c) == Compare(a, b).Then(Compare(b, c))
  {
    hide Compare, CompareBytes, Payload;
    CompareIsKeyOrder(a, b);
    CompareIsKeyOrder(b, c);
    CompareIsKeyOrder(a, c);
    if a.rrclass == b.rrclass == c.rrclass && KeyOf(a).code == KeyOf(b).code == KeyOf(c).code {
      BytesTransitive(Payload(a.rdata), Payload(b.rdata), Payload(c.rdata));
    }
  }

  /** The lifted comparison is a total order on what tiebreaking sees. */
  lemma {:induction false} ListsAntisymmetric(a: seq<Record>, b: seq<Record>)
    ensures CompareLists(b, a) == CompareLists(a, b).Flip()
    ensures CompareLists(a, b) == Equal <==> Keys(a) == Keys(b)
  {
    hide Compare, KeyOf;
    if a != [] && b != [] {
      CompareAntisymmetric(a[0], b[0]);
      ListsAntisymmetric(a[1..], b[1..]);
      assert Keys(a)[1..] == Keys(a[1..]) && Keys(b)[1..] == Keys(b[1..]);
    }
  }

  lemma {:induction false} ListsTransitive(a: seq<Record>, b: seq<Record>, c: seq<Record>)
    requires CompareLists(a, b) != Greater && CompareLists(b, c) != Greater
    ensures CompareLists(a, c) == CompareLists(a, b).Then(CompareLists(b, c))
  {
    hide Compare;
    if a != [] && b != [] {
      CompareAntisymmetric(a[0], b[0]);
      if c != [] {
        CompareTransitive(a[0], b[0], c[0]);
        if Compare(a[0], b[0]) == Compare(b[0], c[0]) == Equal {
          ListsTransitive(a[1..], b[1..], c[1..]);
        }
      }
    }
  }

  /** A prober yields to a peer whose list is later. */
  predicate Yields(mine: seq<Record>, theirs: seq<Record>) {
    CompareLists(mine, theirs) == Less
  }

  /** Two probers that see each other never both yield; exactly one does if their data differ. */
  lemma OneYields(a: seq<Record>, b: seq<Record>)
    ensures !(Yields(a, b) && Yields(b, a))
    ensures Yields(a, b) || Yields(b, a) <==> Keys(a) != Keys(b)
  {
    ListsAntisymmetric(a, b);
  }

  /** The earlier of two byte strings: at the first difference it has the lower byte, or it ends. */
  ghost predicate EarlierBytes(a: bytes, b: bytes) {
    exists i: nat :: i <= |a| && i < |b| && a[..i] == b[..i] && (i < |a| ==> a[i] < b[i])
  }

  lemma {:induction false} LessBytesIff(a: bytes, b: bytes)
    ensures CompareBytes(a, b) == Less <==> EarlierBytes(a, b)
  {
    if a != [] && b != [] && a[0] == b[0] {
      LessBytesIff(a[1..], b[1..]);
      if EarlierBytes(a[1..], b[1..]) {
        var i: nat :| i <= |a[1..]| && i < |b[1..]| && a[1..][..i] == b[1..][..i] &&
                      (i < |a[1..]| ==> a[1..][i] < b[1..][i]);
        assert a[..i + 1] == [a[0]] + a[1..][..i] && b[..i + 1] == [b[0]] + b[1..][..i];
        assert EarlierBytes(a, b);
      }
      if EarlierBytes(a, b) {
        var i: nat :| i <= |a| && i < |b| && a[..i] == b[..i] && (i < |a| ==> a[i] < b[i]);
        assert i > 0;
        assert a[1..][..i - 1] == a[..i][1..] && b[1..][..i - 1] == b[..i][1..];
        assert EarlierBytes(a[1..], b[1..]);
      }
    } else if a == [] {
      assert a[..0] == b[..0];
    } else if b != [] {
      assert a[..0] == b[..0];
      forall i: nat | 0 < i <= |a| && i < |b|
        ensures a[..i] != b[..i]
      {
        assert a[..i][0] == a[0] && b[..i][0] == b[0];
      }
    }
  }

  /** RFC 6762 section 8.2, up to the form of names: class, then type, then the bytes of the data. */
  ghost predicate EarlierRecord(a: Record, b: Record) {
    || a.rrclass < b.rrclass
    || (a.rrclass == b.rrclass && a.rdata.Type().Code() < b.rdata.Type().Code())
    || (a.rrclass == b.rrclass && a.rdata.Type() == b.rdata.Type() && EarlierBytes(Payload(a.rdata), Payload(b.rdata)))
  }

  /** A list yields exactly if at the first difference it has the earlier record, or ends. */
  lemma YieldsIff(mine: seq<Record>, theirs: seq<Record>)
    ensures Yields(mine, theirs) <==>
            var i := FirstDifference(Keys(mine), Keys(theirs));
            i <= |mine| && i < |theirs| && (i < |mine| ==> EarlierRecord(mine[i], theirs[i]))
  {
    ListsDecide(mine, theirs);
  }

  lemma {:induction false} ListsDecide(mine: seq<Record>, theirs: seq<Record>)
    ensures var i := FirstDifference(Keys(mine), Keys(theirs));
            && i <= |mine| && i <= |theirs|
            && (CompareLists(mine, theirs) == Less <==>
                  i < |theirs| && (i < |mine| ==> EarlierRecord(mine[i], theirs[i])))
  {
    hide Compare, KeyOf, EarlierRecord;
    if mine != [] && theirs != [] {
      CompareAntisymmetric(mine[0], theirs[0]);
      LessRecordIff(mine[0], theirs[0]);
      ListsDecide(mine[1..], theirs[1..]);
      assert Keys(mine)[1..] == Keys(mine[1..]) && Keys(theirs)[1..] == Keys(theirs[1..]);
    }
  }

  lemma LessRecordIff(a: Record, b: Record)
    ensures Compare(a, b) == Less <==> EarlierRecord(a, b)
  {
    hide Compare, CompareBytes, Payload, EarlierBytes;
    CompareIsKeyOrder(a, b);
    LessBytesIff(Payload(a.rdata), Payload(b.rdata));
    assert FromCode(a.rdata.Type().Code()) == Some(a.rdata.Type());
    assert FromCode(b.rdata.Type().Code()) == Some(b.rdata.Type());
  }

  /** Tiebreaking takes two records for the same exactly if class, type and data are; the interface is not looked at. */
  lemma SameKeyIff(a: Record, b: Record)
    ensures KeyOf(a) == KeyOf(b) <==>
            a.rrclass == b.rrclass &&
            match (a.rdata, b.rdata)
            case (Addr4(x, _), Addr4(y, _)) => x == y
            case (Addr6(x, _), Addr6(y, _)) => x == y
            case (Pointer(c, x), Pointer(c', y)) => c == c' && x == y
            case (Srv(p, w, q, h), Srv(p', w', q', h')) => p == p' && w == w' && q == q' && h == h'
            case (Txt(x), Txt(y)) => x == y
            case _ => false
  {
    assert FromCode(a.rdata.Type().Code()) == Some(a.rdata.Type());
    assert FromCode(b.rdata.Type().Code()) == Some(b.rdata.Type());
    if a.rdata.Srv? && b.rdata.Srv? {
      SrvPayload(a.rdata);
      SrvPayload(b.rdata);
      hide Be16, Payload;
    }
  }

  /** The data of an SRV record can be told from its payload. */
  lemma SrvPayload(d: RData)
    requires d.Srv?
    ensures var p := Payload(d);
            && |p| >= 6 && p[6..] == d.host
            && U16(p[0], p[1]) == d.priority && U16(p[2], p[3]) == d.weight && U16(p[4], p[5]) == d.port
  {
    hide U16;
  }

  /** How many elements two lists have in common before they differ, or before one of them ends. */
  function FirstDifference(a: seq<Key>, b: seq<Key>): nat {
    if a == [] || b == [] || a[0] != b[0] then 0 else 1 + FirstDifference(a[1..], b[1..])
  }

  /** To see only the beginning of a later list is enough exactly if the first difference is in it. */
  lemma {:induction false} YieldsToPrefixIff(mine: seq<Record>, theirs: seq<Record>, m: nat)
    requires m <= |theirs|
    ensures Yields(mine, theirs[..m]) <==> Yields(mine, theirs) && FirstDifference(Keys(mine), Keys(theirs)) < m
  {
    hide Compare, KeyOf;
    if m > 0 && mine != [] {
      CompareAntisymmetric(mine[0], theirs[0]);
      YieldsToPrefixIff(mine[1..], theirs[1..], m - 1);
      assert theirs[..m][1..] == theirs[1..][..m - 1];
      assert Keys(mine)[1..] == Keys(mine[1..]) && Keys(theirs)[1..] == Keys(theirs[1..]);
    }
  }

  lemma {:induction false} DifferenceSymmetric(a: seq<Key>, b: seq<Key>)
    ensures FirstDifference(a, b) == FirstDifference(b, a)
    ensures FirstDifference(a, b) <= |a| && FirstDifference(a, b) <= |b|
  {
    if a != [] && b != [] {
      DifferenceSymmetric(a[1..], b[1..]);
    }
  }

  /** Among any probers there is one that yields to none of them. */
  lemma {:induction false} SomeoneWins(hosts: seq<seq<Record>>) returns (w: nat)
    requires hosts != []
    ensures w < |hosts| && forall j :: 0 <= j < |hosts| ==> !Yields(hosts[w], hosts[j])
  {
    hide CompareLists;
    var last := |hosts| - 1;
    ListsAntisymmetric(hosts[last], hosts[last]);
    if last == 0 {
      w := 0;
    } else {
      w := SomeoneWins(hosts[..last]);
      assert forall j :: 0 <= j < last ==> hosts[..last][j] == hosts[j];
      if Yields(hosts[w], hosts[last]) {
        forall j | 0 <= j < last
          ensures !Yields(hosts[last], hosts[j])
        {
          ListsAntisymmetric(hosts[w], hosts[j]);
          if Yields(hosts[last], hosts[j]) {
            ListsTransitive(hosts[w], hosts[last], hosts[j]);
          }
        }
        w := last;
      }
    }
  }

  /** Whoever yields to no one has the greatest list. */
  lemma WinnerIsGreatest(hosts: seq<seq<Record>>, w: nat, j: nat)
    requires w < |hosts| && j < |hosts|
    requires forall k :: 0 <= k < |hosts| ==> !Yields(hosts[w], hosts[k])
    ensures CompareLists(hosts[j], hosts[w]) != Greater
  {
    ListsAntisymmetric(hosts[w], hosts[j]);
  }
}
