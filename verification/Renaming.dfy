// New names after a conflict (RFC 6762 section 9): a number is added to the first label, or counted up.
module Renaming {
  import opened Bytes

  const SPACE: byte := 32
  const OPEN: byte := 40
  const CLOSE: byte := 41
  const PLUS: byte := 43
  const HYPHEN: byte := 45
  const OPENING: bytes := [SPACE, OPEN]
  const DASH: bytes := [HYPHEN]
  const U32_VALUES := 0x1_0000_0000

  // ----- Decimal numbers -----

  predicate IsDigit(b: byte) {
    48 <= b <= 57
  }

  function Show(n: nat): (s: bytes)
    ensures s != [] && forall b <- s :: IsDigit(b)
  {
    if n < 10 then [48 + n] else Show(n / 10) + [48 + n % 10]
  }

  predicate AllDigits(s: bytes) {
    forall b <- s :: IsDigit(b)
  }

  function Value(s: bytes): nat
    requires AllDigits(s)
  {
    if s == [] then 0
    else
      assert IsDigit(s[|s| - 1]);
      Value(s[..|s| - 1]) * 10 + s[|s| - 1] as int - 48
  }

  /** A decimal `u32`, possibly with a plus sign. */
  function ParseU32(s: bytes): Option<u32> {
    var digits := if s != [] && s[0] == PLUS then s[1..] else s;
    if digits != [] && AllDigits(digits) && Value(digits) < U32_VALUES then Some(Value(digits)) else None
  }

  lemma {:induction false} ValueOfShow(n: nat)
    ensures Value(Show(n)) == n
  {
    if n >= 10 {
      ValueOfShow(n / 10);
      assert Show(n)[..|Show(n)| - 1] == Show(n / 10);
    }
  }

  lemma ParseOfShow(n: u32)
    ensures ParseU32(Show(n)) == Some(n)
  {
    ValueOfShow(n);
    assert IsDigit(Show(n)[0]);
  }

  // ----- Searching -----

  function FirstAt(s: bytes, b: byte): (i: nat)
    ensures i <= |s| && b !in s[..i] && (i < |s| ==> s[i] == b)
  {
    if s == [] || s[0] == b then 0
    else
      var i := FirstAt(s[1..], b);
      assert s[..i + 1] == [s[0]] + s[1..][..i];
      i + 1
  }

  predicate At(s: bytes, pattern: bytes, i: nat) {
    i + |pattern| <= |s| && forall j :: 0 <= j < |pattern| ==> s[i + j] == pattern[j]
  }

  /** The last place of `pattern` before `end`. */
  function LastAt(s: bytes, pattern: bytes, end: nat): (i: Option<nat>)
    ensures i.Some? ==> i.value < end && At(s, pattern, i.value)
    ensures forall k :: (if i.Some? then i.value else -1) < k < end ==> !At(s, pattern, k)
  {
    if end == 0 then None
    else if At(s, pattern, end - 1) then Some(end - 1)
    else LastAt(s, pattern, end - 1)
  }

  // ----- The two kinds of new names -----

  function NumberLabel(first: bytes): bytes {
    match LastAt(first, OPENING, |first|)
    case None => first + NumberTail(2)
    case Some(p) =>
      var end := p + FirstAt(first[p..], CLOSE);
      if end == |first| - 1 && p + 2 <= end && ParseU32(first[p + 2..end]).Some? then
        first[..p] + NumberTail((ParseU32(first[p + 2..end]).value + 1) % U32_VALUES)
      else first + NumberTail(2)
  }

  function NumberTail(k: u32): (t: bytes)
    ensures |t| > 0
  {
    OPENING + Show(k) + [CLOSE]
  }

  function NumberHost(first: bytes): bytes {
    match LastAt(first, DASH, |first|)
    case None => first + HostTail(2)
    case Some(p) =>
      match ParseU32(first[p + 1..])
      case Some(number) => first[..p] + HostTail((number + 1) % U32_VALUES)
      case None => first + HostTail(2)
  }

  function HostTail(k: u32): (t: bytes)
    ensures |t| > 0
  {
    DASH + Show(k)
  }

  function NameChange(original: bytes): bytes {
    var i := FirstAt(original, DOT);
    NumberLabel(original[..i]) + original[i..]
  }

  function HostChange(original: bytes): bytes {
    var i := FirstAt(original, DOT);
    NumberHost(original[..i]) + original[i..]
  }

  // ----- Numbers go up -----

  /** A numbered tail: it opens at the start, closes at the end, and has the number between. */
  predicate IsNumberTail(t: bytes, k: u32) {
    && |t| > 3 && At(t, OPENING, 0) && t[|t| - 1] == CLOSE && t[2..|t| - 1] == Show(k)
    && (forall j :: 0 < j < |t| ==> t[j] != SPACE)
    && (forall j :: 0 <= j < |t| - 1 ==> t[j] != CLOSE)
  }

  lemma NumberTailIs(k: u32)
    ensures IsNumberTail(NumberTail(k), k)
  {
    var t := NumberTail(k);
    assert t[2..|t| - 1] == Show(k);
    forall j | 2 <= j < |t| - 1
      ensures IsDigit(t[j])
    {
      assert t[j] == Show(k)[j - 2];
    }
  }

  lemma LastIs(s: bytes, pattern: bytes, end: nat, p: nat)
    requires p < end && At(s, pattern, p) && forall j :: p < j < end ==> !At(s, pattern, j)
    ensures LastAt(s, pattern, end) == Some(p)
  {
    hide At;
  }

  lemma NumberedLabel(base: bytes, t: bytes, k: u32)
    requires IsNumberTail(t, k)
    ensures NumberLabel(base + t) == base + NumberTail((k + 1) % U32_VALUES)
  {
    hide Show, NumberTail, ParseU32, LastAt, FirstAt;
    var first, p := base + t, |base|;
    forall j | p < j < |first|
      ensures !At(first, OPENING, j)
    {
      assert first[j] == t[j - p];
      assert OPENING[0] == SPACE && first[j + 0] == first[j];
    }
    assert At(first, OPENING, p);
    LastIs(first, OPENING, |first|, p);
    assert first[p..] == t;
    var c := FirstAt(t, CLOSE);
    assert t[|t| - 1] == CLOSE;
    assert c != |t| by { assert t == t[..|t|]; }
    assert c == |t| - 1;
    assert first[p + 2..|first| - 1] == t[2..|t| - 1];
    ParseOfShow(k);
    assert first[..p] == base;
  }

  lemma LabelCountsUp(base: bytes, k: u32)
    ensures NumberLabel(base + NumberTail(k)) == base + NumberTail((k + 1) % U32_VALUES)
  {
    hide *;
    NumberTailIs(k);
    NumberedLabel(base, NumberTail(k), k);
  }

  predicate IsHostTail(t: bytes, k: u32) {
    |t| > 1 && At(t, DASH, 0) && t[1..] == Show(k) && forall j :: 0 < j < |t| ==> t[j] != HYPHEN
  }

  lemma HostTailIs(k: u32)
    ensures IsHostTail(HostTail(k), k)
  {
    var t := HostTail(k);
    assert t[1..] == Show(k);
    forall j | 1 <= j < |t|
      ensures IsDigit(t[j])
    {
      assert t[j] == Show(k)[j - 1];
    }
  }

  lemma NumberedHost(base: bytes, t: bytes, k: u32)
    requires IsHostTail(t, k)
    ensures NumberHost(base + t) == base + HostTail((k + 1) % U32_VALUES)
  {
    hide Show, HostTail, ParseU32, LastAt;
    var first, p := base + t, |base|;
    forall j | p < j < |first|
      ensures !At(first, DASH, j)
    {
      assert first[j] == t[j - p];
      assert DASH[0] == HYPHEN && first[j + 0] == first[j];
    }
    assert At(first, DASH, p);
    LastIs(first, DASH, |first|, p);
    assert first[p + 1..] == t[1..];
    ParseOfShow(k);
    assert first[..p] == base;
  }

  lemma HostCountsUp(base: bytes, k: u32)
    ensures NumberHost(base + HostTail(k)) == base + HostTail((k + 1) % U32_VALUES)
  {
    hide *;
    HostTailIs(k);
    NumberedHost(base, HostTail(k), k);
  }

  // ----- A new name is a new name -----

  lemma SameTail(a: bytes, p: nat, t: bytes)
    requires p <= |a| && a == a[..p] + t
    ensures a[p..] == t
  {
  }

  lemma NumberLabelDiffers(first: bytes)
    ensures NumberLabel(first) != first
  {
    hide Show, NumberTail, ParseU32, LastAt, FirstAt, At;
    var at := LastAt(first, OPENING, |first|);
    if at.Some? && NumberLabel(first) == first {
      var end := at.value + FirstAt(first[at.value..], CLOSE);
      if end == |first| - 1 && at.value + 2 <= end && ParseU32(first[at.value + 2..end]).Some? {
        var p, k := at.value, (ParseU32(first[at.value + 2..end]).value + 1) % U32_VALUES;
        SameTail(first, p, NumberTail(k));
        NumberTailIs(k);
        assert first[p + 2..end] == first[p..][2..|first[p..]| - 1];
        ParseOfShow(k);
      }
    }
  }

  lemma NumberHostDiffers(first: bytes)
    ensures NumberHost(first) != first
  {
    hide Show, HostTail, ParseU32, LastAt, At;
    var at := LastAt(first, DASH, |first|);
    if at.Some? && NumberHost(first) == first {
      var p := at.value;
      if ParseU32(first[p + 1..]).Some? {
        var k := (ParseU32(first[p + 1..]).value + 1) % U32_VALUES;
        SameTail(first, p, HostTail(k));
        HostTailIs(k);
        assert first[p + 1..] == first[p..][1..];
        ParseOfShow(k);
      }
    }
  }

  lemma NewNamesDiffer(original: bytes)
    ensures NameChange(original) != original && HostChange(original) != original
  {
    hide NumberLabel, NumberHost, FirstAt;
    var i := FirstAt(original, DOT);
    NumberLabelDiffers(original[..i]);
    NumberHostDiffers(original[..i]);
    SplitDiffers(original, i, NumberLabel(original[..i]));
    SplitDiffers(original, i, NumberHost(original[..i]));
  }

  lemma SplitDiffers(s: bytes, i: nat, front: bytes)
    requires i <= |s| && front != s[..i]
    ensures front + s[i..] != s
  {
    if |front| == i {
      var k :| 0 <= k < i && front[k] != s[k];
      assert (front + s[i..])[k] == front[k];
    }
  }

  // ----- Conflict after conflict -----

  /** The name of a service after so many conflicts. */
  function NameAfter(original: bytes, conflicts: nat): bytes {
    if conflicts == 0 then original else NameChange(NameAfter(original, conflicts - 1))
  }

  /** The name of a host after so many conflicts. */
  function HostAfter(original: bytes, conflicts: nat): bytes {
    if conflicts == 0 then original else HostChange(HostAfter(original, conflicts - 1))
  }

  lemma TailsHaveNoDot(k: u32)
    ensures DOT !in NumberTail(k) && DOT !in HostTail(k)
  {
    assert forall b <- Show(k) :: b != DOT;
    assert DOT !in OPENING && DOT !in DASH;
  }

  lemma DotsAt(front: bytes, rest: bytes)
    requires DOT !in front && (rest == [] || rest[0] == DOT)
    ensures FirstAt(front + rest, DOT) == |front|
  {
    var s, i := front + rest, FirstAt(front + rest, DOT);
    assert forall j :: 0 <= j < |front| ==> s[j] == front[j] && front[j] in front;
    assert rest != [] ==> s[|front|] == DOT;
    var before := s[..i];
    assert forall j :: 0 <= j < |before| ==> before[j] == s[j] && before[j] in before;
  }

  lemma NumberLabelForm(first: bytes) returns (base: bytes, k: u32)
    ensures NumberLabel(first) == base + NumberTail(k) && base <= first
  {
    hide Show, NumberTail, ParseU32, LastAt, FirstAt, At;
    base, k := first, 2;
    var at := LastAt(first, OPENING, |first|);
    if at.Some? {
      var end := at.value + FirstAt(first[at.value..], CLOSE);
      if end == |first| - 1 && at.value + 2 <= end && ParseU32(first[at.value + 2..end]).Some? {
        base, k := first[..at.value], (ParseU32(first[at.value + 2..end]).value + 1) % U32_VALUES;
      }
    }
  }

  lemma NumberHostForm(first: bytes) returns (base: bytes, k: u32)
    ensures NumberHost(first) == base + HostTail(k) && base <= first
  {
    hide Show, HostTail, ParseU32, LastAt, At;
    base, k := first, 2;
    var at := LastAt(first, DASH, |first|);
    if at.Some? && ParseU32(first[at.value + 1..]).Some? {
      base, k := first[..at.value], (ParseU32(first[at.value + 1..]).value + 1) % U32_VALUES;
    }
  }

  lemma NoDotInPrefix(base: bytes, first: bytes)
    requires base <= first && DOT !in first
    ensures DOT !in base
  {
    assert forall i :: 0 <= i < |base| ==> base[i] == first[i];
  }

  lemma FirstName(original: bytes) returns (base: bytes, k: u32, rest: bytes)
    ensures DOT !in base && (rest == [] || rest[0] == DOT) && NameChange(original) == base + NumberTail(k) + rest
  {
    hide NumberLabel, NumberTail, FirstAt;
    var i := FirstAt(original, DOT);
    base, k := NumberLabelForm(original[..i]);
    rest := original[i..];
    NoDotInPrefix(base, original[..i]);
  }

  lemma FirstHost(original: bytes) returns (base: bytes, k: u32, rest: bytes)
    ensures DOT !in base && (rest == [] || rest[0] == DOT) && HostChange(original) == base + HostTail(k) + rest
  {
    hide NumberHost, HostTail, FirstAt;
    var i := FirstAt(original, DOT);
    base, k := NumberHostForm(original[..i]);
    rest := original[i..];
    NoDotInPrefix(base, original[..i]);
  }

  /** From the first conflict on, the number in the name goes up by one with each conflict. */
  lemma {:induction false} NamesCountUp(original: bytes, conflicts: nat) returns (base: bytes, k: u32, rest: bytes)
    requires conflicts >= 1
    ensures DOT !in base && (rest == [] || rest[0] == DOT)
    ensures forall n :: 1 <= n <= conflicts ==>
              NameAfter(original, n) == base + NumberTail((k + n) % U32_VALUES) + rest
  {
    hide NumberLabel, NumberTail, FirstAt, NameChange;
    if conflicts == 1 {
      var k1: u32;
      base, k1, rest := FirstName(original);
      k := (k1 - 1) % U32_VALUES;
      assert NameAfter(original, 1) == NameChange(NameAfter(original, 0));
    } else {
      base, k, rest := NamesCountUp(original, conflicts - 1);
      NameCountsOn(base, (k + (conflicts - 1)) % U32_VALUES, rest);
      NumberUp(k + (conflicts - 1));
      assert NameAfter(original, conflicts) == NameChange(NameAfter(original, conflicts - 1));
    }
  }

  lemma NumberUp(n: nat)
    ensures (n % U32_VALUES + 1) % U32_VALUES == (n + 1) % U32_VALUES
  {
  }

  lemma NameCountsOn(base: bytes, k: u32, rest: bytes)
    requires DOT !in base && (rest == [] || rest[0] == DOT)
    ensures NameChange(base + NumberTail(k) + rest) == base + NumberTail((k + 1) % U32_VALUES) + rest
  {
    hide NumberLabel, NumberTail, FirstAt;
    LabelCountsUp(base, k);
    TailsHaveNoDot(k);
    var front := base + NumberTail(k);
    DotsAt(front, rest);
    assert (front + rest)[..|front|] == front && (front + rest)[|front|..] == rest;
  }

  lemma HostCountsOn(base: bytes, k: u32, rest: bytes)
    requires DOT !in base && (rest == [] || rest[0] == DOT)
    ensures HostChange(base + HostTail(k) + rest) == base + HostTail((k + 1) % U32_VALUES) + rest
  {
    hide NumberHost, HostTail, FirstAt;
    HostCountsUp(base, k);
    TailsHaveNoDot(k);
    var front := base + HostTail(k);
    DotsAt(front, rest);
    assert (front + rest)[..|front|] == front && (front + rest)[|front|..] == rest;
  }

  lemma {:induction false} HostsCountUp(original: bytes, conflicts: nat) returns (base: bytes, k: u32, rest: bytes)
    requires conflicts >= 1
    ensures DOT !in base && (rest == [] || rest[0] == DOT)
    ensures forall n :: 1 <= n <= conflicts ==>
              HostAfter(original, n) == base + HostTail((k + n) % U32_VALUES) + rest
  {
    hide NumberHost, HostTail, FirstAt, HostChange;
    if conflicts == 1 {
      var k1: u32;
      base, k1, rest := FirstHost(original);
      k := (k1 - 1) % U32_VALUES;
      assert HostAfter(original, 1) == HostChange(HostAfter(original, 0));
    } else {
      base, k, rest := HostsCountUp(original, conflicts - 1);
      HostCountsOn(base, (k + (conflicts - 1)) % U32_VALUES, rest);
      NumberUp(k + (conflicts - 1));
      assert HostAfter(original, conflicts) == HostChange(HostAfter(original, conflicts - 1));
    }
  }

  lemma ShowInjective(j: u32, k: u32)
    requires Show(j) == Show(k)
    ensures j == k
  {
    ParseOfShow(j);
    ParseOfShow(k);
  }

  lemma SameMiddle(base: bytes, a: bytes, b: bytes, rest: bytes)
    ensures base + a + rest == base + b + rest <==> a == b
  {
    var s, t := base + a + rest, base + b + rest;
    assert |a| == |b| ==> s[|base|..|base| + |a|] == a && t[|base|..|base| + |a|] == b;
    assert s == t ==> |s| == |t|;
  }

  lemma TailsInjective(j: u32, k: u32)
    ensures NumberTail(j) == NumberTail(k) <==> j == k
    ensures HostTail(j) == HostTail(k) <==> j == k
  {
    NumberTailIs(j);
    NumberTailIs(k);
    HostTailIs(j);
    HostTailIs(k);
    if Show(j) == Show(k) { ShowInjective(j, k); }
  }

  /** No two conflicts give the same name, up to the wrap of the 32-bit number. */
  lemma NamesNeverRepeat(original: bytes, i: nat, j: nat)
    requires 1 <= i < j
    ensures NameAfter(original, i) == NameAfter(original, j) <==> (j - i) % U32_VALUES == 0
    ensures HostAfter(original, i) == HostAfter(original, j) <==> (j - i) % U32_VALUES == 0
  {
    hide NumberLabel, NumberTail, NumberHost, HostTail, FirstAt, NameAfter, HostAfter;
    var base, k, rest := NamesCountUp(original, j);
    NumbersRepeat(k, i, j);
    SameMiddle(base, NumberTail((k + i) % U32_VALUES), NumberTail((k + j) % U32_VALUES), rest);
    TailsInjective((k + i) % U32_VALUES, (k + j) % U32_VALUES);
    var base', k', rest' := HostsCountUp(original, j);
    NumbersRepeat(k', i, j);
    SameMiddle(base', HostTail((k' + i) % U32_VALUES), HostTail((k' + j) % U32_VALUES), rest');
    TailsInjective((k' + i) % U32_VALUES, (k' + j) % U32_VALUES);
  }

  lemma NumbersRepeat(k: u32, i: nat, j: nat)
    requires i < j
    ensures (k + i) % U32_VALUES == (k + j) % U32_VALUES <==> (j - i) % U32_VALUES == 0
  {
  }

  // ----- Examples -----

  lemma NotWithin(l: bytes, pattern: bytes)
    requires pattern != [] && pattern[0] !in l
    ensures LastAt(l, pattern, |l|) == None
  {
    forall i: nat | i < |l|
      ensures !At(l, pattern, i)
    {
      assert l[i + 0] in l;
    }
  }

  const FOO: bytes := [102, 111, 111]
  const BEHIND: bytes := [DOT, 116, DOT]

  /** `foo.t.` becomes `foo (2).t.` and then `foo (3).t.`; as a host it becomes `foo-2.t.` and then `foo-3.t.` */
  lemma RenameExamples()
    ensures NameChange(FOO + BEHIND) == [102, 111, 111, 32, 40, 50, 41] + BEHIND
    ensures NameChange([102, 111, 111, 32, 40, 50, 41] + BEHIND) == [102, 111, 111, 32, 40, 51, 41] + BEHIND
    ensures HostChange(FOO + BEHIND) == [102, 111, 111, 45, 50] + BEHIND
    ensures HostChange([102, 111, 111, 45, 50] + BEHIND) == [102, 111, 111, 45, 51] + BEHIND
  {
    TailExamples();
    hide NumberLabel, NumberHost, NumberTail, HostTail, FirstAt, NameChange, HostChange;
    NameCountsOn(FOO, 2, BEHIND);
    HostCountsOn(FOO, 2, BEHIND);
    FirstExample();
  }

  lemma TailExamples()
    ensures NumberTail(2) == [32, 40, 50, 41] && NumberTail(3) == [32, 40, 51, 41]
    ensures HostTail(2) == [45, 50] && HostTail(3) == [45, 51]
    ensures FOO + NumberTail(2) == [102, 111, 111, 32, 40, 50, 41]
    ensures FOO + NumberTail(3) == [102, 111, 111, 32, 40, 51, 41]
    ensures FOO + HostTail(2) == [102, 111, 111, 45, 50] && FOO + HostTail(3) == [102, 111, 111, 45, 51]
  {
    assert Show(2) == [50] && Show(3) == [51];
  }

  lemma FirstExample()
    ensures NameChange(FOO + BEHIND) == FOO + NumberTail(2) + BEHIND
    ensures HostChange(FOO + BEHIND) == FOO + HostTail(2) + BEHIND
  {
    hide NumberTail, HostTail, FirstAt;
    DotsAt(FOO, BEHIND);
    assert (FOO + BEHIND)[..3] == FOO && (FOO + BEHIND)[3..] == BEHIND;
    NotWithin(FOO, OPENING);
    NotWithin(FOO, DASH);
  }
}
