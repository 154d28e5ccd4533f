// Key/value properties as the rdata of a TXT record.
module TxtCodec {
  import opened Bytes

  const EQUALS: byte := 61
  const MAX_STRING := 255

  datatype TxtProperty = TxtProperty(key: bytes, val: Option<bytes>)

  /** A property as one constituent string, before any truncation. */
  function Text(p: TxtProperty): bytes {
    match p.val
    case None => p.key
    case Some(v) => p.key + [EQUALS] + v
  }

  function Cut(s: bytes): (r: bytes)
    ensures |r| <= MAX_STRING
  {
    if |s| > MAX_STRING then s[..MAX_STRING] else s
  }

  function Chunk(p: TxtProperty): bytes {
    [|Cut(Text(p))|] + Cut(Text(p))
  }

  function Chunks(ps: seq<TxtProperty>): bytes {
    if ps == [] then [] else Chunk(ps[0]) + Chunks(ps[1..])
  }

  /** RFC 6763 section 6.1: a TXT record without properties holds one empty string. */
  function Encoded(ps: seq<TxtProperty>): bytes {
    if ps == [] then [0] else Chunks(ps)
  }

  /** The first `=` splits key and value. */
  function Split(s: bytes): TxtProperty {
    SplitAt(s, 0)
  }

  function SplitAt(s: bytes, i: nat): TxtProperty
    requires i <= |s|
    decreases |s| - i
  {
    if i == |s| then TxtProperty(s, None)
    else if s[i] == EQUALS then TxtProperty(s[..i], Some(s[i + 1..]))
    else SplitAt(s, i + 1)
  }

  function Decoded(txt: bytes): seq<TxtProperty> {
    if txt == [] || txt[0] == 0 || 1 + txt[0] > |txt| then []
    else [Split(txt[1..1 + txt[0]])] + Decoded(txt[1 + txt[0]..])
  }

  /** One turn of the encoder's loop: the length byte and the string of `p`. */
  method EncodeProperty(p: TxtProperty) returns (r: bytes)
    ensures r == Chunk(p)
  {
    var s := p.key;
    if p.val.Some? {
      s := s + [EQUALS] + p.val.value;
    }
    if |s| > MAX_STRING {
      s := s[..MAX_STRING];
    }
    r := [|s|] + s;
  }

  method EncodeTxt(ps: seq<TxtProperty>) returns (r: bytes)
    ensures r == Encoded(ps)
  {
    hide Chunk;
    r := [];
    for i := 0 to |ps|
      invariant r + Chunks(ps[i..]) == Chunks(ps)
    {
      assert ps[i..][1..] == ps[i + 1..];
      ghost var before, rest := r, Chunks(ps[i + 1..]);
      var chunk := EncodeProperty(ps[i]);
      r := r + chunk;
      assert r + rest == before + (chunk + rest);
    }
    assert ps[|ps|..] == [] && r + [] == r;
    NoChunks(ps);
    if r == [] {
      r := [0];
    }
  }

  lemma NoChunks(ps: seq<TxtProperty>)
    ensures Chunks(ps) == [] <==> ps == []
  {
  }

  method SplitProperty(s: bytes) returns (p: TxtProperty)
    ensures p == Split(s)
  {
    var i := 0;
    while i < |s| && s[i] != EQUALS
      invariant 0 <= i <= |s|
      invariant SplitAt(s, i) == Split(s)
    {
      i := i + 1;
    }
    p := if i == |s| then TxtProperty(s, None) else TxtProperty(s[..i], Some(s[i + 1..]));
  }

  method DecodeTxt(txt: bytes) returns (ps: seq<TxtProperty>)
    ensures ps == Decoded(txt)
  {
    ps := [];
    var offset := 0;
    while offset < |txt|
      invariant 0 <= offset <= |txt|
      invariant ps + Decoded(txt[offset..]) == Decoded(txt)
    {
      var length := txt[offset];
      ghost var rest := txt[offset..];
      if length == 0 {
        break;
      }
      offset := offset + 1;
      var end := offset + length;
      if end > |txt| {
        break;
      }
      assert rest[1..1 + length] == txt[offset..end] && rest[1 + length..] == txt[end..];
      var p := SplitProperty(txt[offset..end]);
      ghost var more := Decoded(txt[end..]);
      assert ps + ([p] + more) == ps + [p] + more;
      ps := ps + [p];
      offset := offset + length;
    }
  }

  /** What a TXT record can carry unchanged: a key without `=`, and 1 to 255 bytes in all. */
  predicate Representable(p: TxtProperty) {
    EQUALS !in p.key && 1 <= |Text(p)| <= MAX_STRING
  }

  lemma {:induction false} SplitFindsFirst(s: bytes, i: nat, k: nat)
    requires i <= k <= |s| && (forall j :: i <= j < k ==> s[j] != EQUALS) && (k < |s| ==> s[k] == EQUALS)
    ensures SplitAt(s, i) == if k == |s| then TxtProperty(s, None) else TxtProperty(s[..k], Some(s[k + 1..]))
    decreases k - i
  {
    if i < k {
      SplitFindsFirst(s, i + 1, k);
    }
  }

  lemma {:induction false} SplitKeyHasNoEquals(s: bytes, i: nat)
    requires i <= |s| && forall j :: 0 <= j < i ==> s[j] != EQUALS
    ensures EQUALS !in SplitAt(s, i).key
    ensures Text(SplitAt(s, i)) == s
    decreases |s| - i
  {
    if i < |s| && s[i] != EQUALS {
      SplitKeyHasNoEquals(s, i + 1);
    } else if i < |s| {
      assert s == s[..i] + [EQUALS] + s[i + 1..];
    }
  }

  /** One property survives exactly if it is representable. */
  lemma PropertyRoundTrip(p: TxtProperty)
    ensures Representable(p) <==> Cut(Text(p)) != [] && Split(Cut(Text(p))) == p
  {
    var s := Text(p);
    if Representable(p) {
      SplitFindsFirst(s, 0, |p.key|);
      assert forall j :: 0 <= j < |p.key| ==> s[j] == p.key[j] && s[j] in p.key;
    }
    if Cut(s) != [] && Split(Cut(s)) == p {
      SplitKeyHasNoEquals(Cut(s), 0);
      assert Text(p) == Cut(s);
    }
  }

  lemma DecodeChunk(p: TxtProperty, rest: bytes)
    ensures Decoded(Chunk(p) + rest)
         == if Cut(Text(p)) == [] then [] else [Split(Cut(Text(p)))] + Decoded(rest)
  {
    var s := Cut(Text(p));
    var txt := Chunk(p) + rest;
    assert txt[0] == |s|;
    if s != [] {
      assert txt[1..1 + |s|] == s && txt[1 + |s|..] == rest;
    }
  }

  lemma {:induction false} ChunksRoundTrip(ps: seq<TxtProperty>)
    ensures |Decoded(Chunks(ps))| <= |ps|
    ensures Decoded(Chunks(ps)) == ps <==> forall p <- ps :: Representable(p)
  {
    if ps != [] {
      hide Cut, Text, Representable;
      var p, rest := ps[0], ps[1..];
      ChunksRoundTrip(rest);
      DecodeChunk(p, Chunks(rest));
      PropertyRoundTrip(p);
      assert ps == [p] + rest;
      if Cut(Text(p)) != [] {
        var back := Decoded(Chunks(rest));
        assert ([Split(Cut(Text(p)))] + back)[1..] == back;
      }
    }
  }

  /**
   * The TXT round trip: reading back what was written gives the properties exactly if each of them
   * is representable. One that is not loses something, and an empty one hides all behind it.
   */
  lemma TxtRoundTrip(ps: seq<TxtProperty>)
    ensures Decoded(Encoded(ps)) == ps <==> forall p <- ps :: Representable(p)
  {
    ChunksRoundTrip(ps);
  }

  /** The property at `i` is the first one of its key, up to the case folding `fold`. */
  predicate First(ps: seq<TxtProperty>, i: nat, fold: bytes -> bytes)
    requires i < |ps|
  {
    forall j :: 0 <= j < i ==> fold(ps[j].key) != fold(ps[i].key)
  }

  function Firsts(ps: seq<TxtProperty>, n: nat, fold: bytes -> bytes): seq<TxtProperty>
    requires n <= |ps|
  {
    if n == 0 then []
    else Firsts(ps, n - 1, fold) + if First(ps, n - 1, fold) then [ps[n - 1]] else []
  }

  method DecodeTxtUnique(txt: bytes, fold: bytes -> bytes) returns (r: seq<TxtProperty>)
    ensures r == Firsts(Decoded(txt), |Decoded(txt)|, fold)
  {
    var ps := DecodeTxt(txt);
    var keys: set<bytes> := {};
    r := [];
    for i := 0 to |ps|
      invariant r == Firsts(ps, i, fold)
      invariant forall k :: k in keys <==> exists j :: 0 <= j < i && fold(ps[j].key) == k
    {
      var key := fold(ps[i].key);
      if key !in keys {
        r := r + [ps[i]];
      }
      keys := keys + {key};
    }
  }

  /** `p` is the first property of its key, among the first `n`. */
  predicate FirstAmong(ps: seq<TxtProperty>, n: nat, fold: bytes -> bytes, p: TxtProperty)
    requires n <= |ps|
  {
    exists i :: 0 <= i < n && ps[i] == p && First(ps, i, fold)
  }

  lemma AmongMore(ps: seq<TxtProperty>, n: nat, fold: bytes -> bytes, p: TxtProperty)
    requires n < |ps|
    ensures FirstAmong(ps, n + 1, fold, p) <==> FirstAmong(ps, n, fold, p) || (First(ps, n, fold) && p == ps[n])
  {
    hide First;
  }

  lemma {:induction false} FirstsAre(ps: seq<TxtProperty>, n: nat, fold: bytes -> bytes, p: TxtProperty)
    requires n <= |ps|
    ensures p in Firsts(ps, n, fold) <==> FirstAmong(ps, n, fold, p)
  {
    if n > 0 {
      hide First, FirstAmong;
      FirstsAre(ps, n - 1, fold, p);
      AmongMore(ps, n - 1, fold, p);
    }
  }

  /** RFC 6763 section 6.4: every key is there once, and with its first value. */
  lemma {:induction false} FirstsAreUnique(ps: seq<TxtProperty>, n: nat, fold: bytes -> bytes)
    requires n <= |ps|
    ensures forall i, j :: 0 <= i < j < |Firsts(ps, n, fold)| ==>
                             fold(Firsts(ps, n, fold)[i].key) != fold(Firsts(ps, n, fold)[j].key)
    ensures forall p :: p in Firsts(ps, n, fold) <==> FirstAmong(ps, n, fold, p)
  {
    if n > 0 {
      FirstsAreUnique(ps, n - 1, fold);
      var front := Firsts(ps, n - 1, fold);
      if First(ps, n - 1, fold) {
        forall p <- front
          ensures fold(p.key) != fold(ps[n - 1].key)
        {
          var i :| 0 <= i < n - 1 && ps[i] == p && First(ps, i, fold);
        }
      }
    }
    forall p
      ensures p in Firsts(ps, n, fold) <==> FirstAmong(ps, n, fold, p)
    {
      FirstsAre(ps, n, fold, p);
    }
  }

  /** RFC 6763 section 6.1 on examples: `a=b` is preceded by its length, and no properties are one empty string. */
  lemma TxtExamples()
    ensures Encoded([TxtProperty([97], Some([98]))]) == [3, 97, 61, 98]
    ensures Encoded([TxtProperty([97], None)]) == [1, 97] && Encoded([]) == [0]
  {
    var p, q := TxtProperty([97], Some([98])), TxtProperty([97], None);
    assert Text(p) == [97, 61, 98] && Text(q) == [97];
    assert Chunks([p][1..]) == [] && Chunks([q][1..]) == [];
  }
}
