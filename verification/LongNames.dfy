// When the name that a conflict gives is too long to be sent.
module LongNames {
  import opened Bytes
  import opened DnsName
  import opened DnsRecords
  import opened Wire
  import opened Packing
  import opened Renaming
  import opened Probes
  import opened RegistryState
  import opened RegistrySteps

  ghost predicate AllPlain(labels: seq<bytes>) {
    forall l <- labels :: Plain(l)
  }

  predicate AllShort(labels: seq<bytes>) {
    forall l <- labels :: |l| <= MAX_LABEL_BYTES
  }

  lemma TailsArePlain(k: u32)
    ensures Plain(NumberTail(k)) && Plain(HostTail(k))
  {
    TailsHaveNoDot(k);
    assert forall b <- Show(k) :: b != BACKSLASH;
    assert BACKSLASH !in OPENING && BACKSLASH !in DASH;
  }

  lemma PlainConcat(base: bytes, tail: bytes, l: bytes)
    requires base <= l && Plain(l) && Plain(tail)
    ensures Plain(base + tail)
  {
    assert forall b <- base :: b in l;
  }

  /** The first label of the text of plain labels ends at the first dot. */
  lemma FirstLabel(l: bytes, rest: seq<bytes>)
    requires Plain(l)
    ensures var t, i := Text([l] + rest), FirstAt(Text([l] + rest), DOT);
            i == |l| && t[..i] == l && forall m: bytes :: m + t[i..] == Text([m] + rest)
  {
    hide FirstAt;
    assert ([l] + rest)[1..] == rest;
    var t := Text([l] + rest);
    assert t == l + ([DOT] + Text(rest));
    DotsAt(l, [DOT] + Text(rest));
    assert t[|l|..] == [DOT] + Text(rest);
    forall m: bytes
      ensures m + t[|l|..] == Text([m] + rest)
    {
      assert ([m] + rest)[1..] == rest;
      assert m + ([DOT] + Text(rest)) == m + [DOT] + Text(rest);
    }
  }

  /** Only the first label of a name gets a number. */
  lemma ChangedText(l: bytes, rest: seq<bytes>)
    requires Plain(l)
    ensures NameChange(Text([l] + rest)) == Text([NumberLabel(l)] + rest)
    ensures HostChange(Text([l] + rest)) == Text([NumberHost(l)] + rest)
  {
    hide Text, NumberLabel, NumberHost, FirstAt, Plain;
    FirstLabel(l, rest);
  }

  /** The number that the conflict `n` gives, the first one having given `k`. */
  function Nth(k: u32, n: nat): u32
    requires n >= 1
  {
    (k + n - 1) % U32_VALUES
  }

  lemma OneUp(k: u32, n: nat)
    requires n >= 1
    ensures Nth(k, 1) == k && Nth(k, n + 1) == (Nth(k, n) + 1) % U32_VALUES
  {
  }

  lemma LabelsNext(l: bytes, rest: seq<bytes>, base: bytes, j: u32)
    requires Plain(l) && base <= l
    ensures NameChange(Text([base + NumberTail(j)] + rest)) == Text([base + NumberTail((j + 1) % U32_VALUES)] + rest)
  {
    hide Text, NumberLabel, NumberTail, NameChange, Plain;
    TailsArePlain(j);
    PlainConcat(base, NumberTail(j), l);
    ChangedText(base + NumberTail(j), rest);
    LabelCountsUp(base, j);
  }

  /** After so many conflicts, the number in the first label is as many up, and the other labels are the same. */
  lemma {:induction false} LabelsAfter(l: bytes, rest: seq<bytes>, base: bytes, k: u32, n: nat)
    requires Plain(l) && base <= l && NumberLabel(l) == base + NumberTail(k) && n >= 1
    ensures NameAfter(Text([l] + rest), n) == Text([base + NumberTail(Nth(k, n))] + rest)
  {
    hide Text, NumberLabel, NumberTail, NameChange, Plain, Nth;
    if n == 1 {
      OneUp(k, 1);
      ChangedText(l, rest);
      assert NameAfter(Text([l] + rest), 0) == Text([l] + rest);
    } else {
      LabelsAfter(l, rest, base, k, n - 1);
      OneUp(k, n - 1);
      LabelsNext(l, rest, base, Nth(k, n - 1));
      assert NameAfter(Text([l] + rest), n) == NameChange(NameAfter(Text([l] + rest), n - 1));
    }
  }

  lemma HostLabelsNext(l: bytes, rest: seq<bytes>, base: bytes, j: u32)
    requires Plain(l) && base <= l
    ensures HostChange(Text([base + HostTail(j)] + rest)) == Text([base + HostTail((j + 1) % U32_VALUES)] + rest)
  {
    hide Text, NumberHost, HostTail, HostChange, Plain;
    TailsArePlain(j);
    PlainConcat(base, HostTail(j), l);
    ChangedText(base + HostTail(j), rest);
    HostCountsUp(base, j);
  }

  lemma {:induction false} HostLabelsAfter(l: bytes, rest: seq<bytes>, base: bytes, k: u32, n: nat)
    requires Plain(l) && base <= l && NumberHost(l) == base + HostTail(k) && n >= 1
    ensures HostAfter(Text([l] + rest), n) == Text([base + HostTail(Nth(k, n))] + rest)
  {
    hide Text, NumberHost, HostTail, HostChange, Plain, Nth;
    if n == 1 {
      OneUp(k, 1);
      ChangedText(l, rest);
      assert HostAfter(Text([l] + rest), 0) == Text([l] + rest);
    } else {
      HostLabelsAfter(l, rest, base, k, n - 1);
      OneUp(k, n - 1);
      HostLabelsNext(l, rest, base, Nth(k, n - 1));
      assert HostAfter(Text([l] + rest), n) == HostChange(HostAfter(Text([l] + rest), n - 1));
    }
  }

  lemma TextTooLongIff(l: bytes, rest: seq<bytes>)
    requires Plain(l) && AllPlain(rest) && AllShort(rest)
    ensures NameTooLong(Text([l] + rest)) <==> |l| > MAX_LABEL_BYTES
  {
    hide Text, Labels;
    TextRoundTrip([l] + rest);
    assert ([l] + rest)[0] == l;
  }

  /**
   * A service name of plain labels, each of at most 63 bytes, whose first conflict gives the number `k` behind
   * `base`: after `n` conflicts its name cannot be sent exactly if `base`, the parentheses and the digits of
   * the number, which by then is `n - 1` up, take more than 63 bytes.
   */
  lemma NameAfterTooLongIff(l: bytes, rest: seq<bytes>, base: bytes, k: u32, n: nat)
    requires Plain(l) && AllPlain(rest) && AllShort(rest) && n >= 1
    requires base <= l && NumberLabel(l) == base + NumberTail(k)
    ensures NameTooLong(NameAfter(Text([l] + rest), n))
       <==> |base| + 3 + |Show(Nth(k, n))| > MAX_LABEL_BYTES
  {
    hide Text, NumberLabel, NameTooLong, NameAfter, Show;
    var j := Nth(k, n);
    LabelsAfter(l, rest, base, k, n);
    TailsArePlain(j);
    PlainConcat(base, NumberTail(j), l);
    TextTooLongIff(base + NumberTail(j), rest);
  }

  /** The same for a host name, with its hyphen. */
  lemma HostAfterTooLongIff(l: bytes, rest: seq<bytes>, base: bytes, k: u32, n: nat)
    requires Plain(l) && AllPlain(rest) && AllShort(rest) && n >= 1
    requires base <= l && NumberHost(l) == base + HostTail(k)
    ensures NameTooLong(HostAfter(Text([l] + rest), n))
       <==> |base| + 1 + |Show(Nth(k, n))| > MAX_LABEL_BYTES
  {
    hide Text, NumberHost, NameTooLong, HostAfter, Show;
    var j := Nth(k, n);
    HostLabelsAfter(l, rest, base, k, n);
    TailsArePlain(j);
    PlainConcat(base, HostTail(j), l);
    TextTooLongIff(base + HostTail(j), rest);
  }

  /** A label without a number can be sent after the first conflict up to 59 bytes, a host without one up to 61. */
  lemma FirstConflictTooLongIff(l: bytes, rest: seq<bytes>)
    requires Plain(l) && AllPlain(rest) && AllShort(rest)
    ensures SPACE !in l ==> (NameTooLong(NameChange(Text([l] + rest))) <==> |l| >= 60)
    ensures HYPHEN !in l ==> (NameTooLong(HostChange(Text([l] + rest))) <==> |l| >= 62)
  {
    hide Text, NameTooLong, NameChange, HostChange;
    var name := Text([l] + rest);
    assert Show(2) == [50];
    assert NameAfter(name, 0) == name && HostAfter(name, 0) == name;
    assert NameAfter(name, 1) == NameChange(name) && HostAfter(name, 1) == HostChange(name);
    if SPACE !in l {
      NotWithin(l, OPENING);
      assert NumberLabel(l) == l + NumberTail(2);
      NameAfterTooLongIff(l, rest, l, 2, 1);
    }
    if HYPHEN !in l {
      NotWithin(l, DASH);
      assert NumberHost(l) == l + HostTail(2);
      HostAfterTooLongIff(l, rest, l, 2, 1);
    }
  }

  /**
   * A probe for such a name never gets a query or a record of its own out, in whatever packet, and yet makes its
   * records active when its time is over.
   */
  lemma UnsentBecomesActive(reg: Reg, now: nat, name: bytes, r: Record, lim: Limits, section: Section, time: nat)
    requires NameTooLong(name) && RegOk(reg) && name in Over(reg.probing, now) && r in reg.probing[name].records
    ensures name in Polled(reg, now).active && r in Polled(reg, now).active[name]
    ensures !Encodable(Ask(Question(name, ANY, 1, false)), lim) && !Encodable(Tell(section, r, time), lim)
  {
    hide NameTooLong, Sorted;
    assert Filed(reg.probing[name].records, name);
  }
}
