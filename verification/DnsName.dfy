// Domain names as text: escaping, splitting into labels, and the dotted text
// that a reader of the wire form gets back.
module DnsName {
  import opened Bytes

  /** A label that is still open when the scan stops counts only if it is not empty. */
  function Close(current: bytes): seq<bytes> {
    if current == [] then [] else [current]
  }

  /** The labels of `s`, given that `current` has been read of the first of them. */
  function Scan(s: bytes, current: bytes): seq<bytes>
    decreases |s|
  {
    if s == [] then Close(current)
    else if s[0] == BACKSLASH && |s| > 1 && (s[1] == DOT || s[1] == BACKSLASH) then
      Scan(s[2..], current + [s[1]])
    else if s[0] == DOT then Close(current) + Scan(s[1..], [])
    else Scan(s[1..], current + [s[0]])
  }

  function StripDot(name: bytes): bytes {
    if |name| > 0 && name[|name| - 1] == DOT then name[..|name| - 1] else name
  }

  /** The labels that the packet writer sends for `name`. */
  function Labels(name: bytes): seq<bytes> {
    Scan(StripDot(name), [])
  }

  /** Each label followed by a dot: what a reader of the wire form returns. */
  function Text(labels: seq<bytes>): bytes {
    if labels == [] then [] else labels[0] + [DOT] + Text(labels[1..])
  }

  /** Labels joined with dots: the key of the compression table. */
  function Join(labels: seq<bytes>): bytes
    requires labels != []
  {
    if |labels| == 1 then labels[0] else labels[0] + [DOT] + Join(labels[1..])
  }

  function Dotted(name: bytes): bytes {
    Text(Labels(name))
  }

  /** ASCII letters in lower case. */
  function Lower(name: bytes): (r: bytes)
    ensures |r| == |name|
  {
    seq(|name|, i requires 0 <= i < |name| => if 65 <= name[i] <= 90 then name[i] + 32 else name[i])
  }

  /** The two bytes are the same letter, or the same byte. */
  predicate SameLetter(x: byte, y: byte) {
    x == y || (65 <= x <= 90 && y == x + 32) || (65 <= y <= 90 && x == y + 32)
  }

  predicate SameButCase(a: bytes, b: bytes) {
    |a| == |b| && forall i :: 0 <= i < |a| ==> SameLetter(a[i], b[i])
  }

  /** Names are the same in lower case exactly if they differ at most in the case of ASCII letters. */
  lemma SameLowerIff(a: bytes, b: bytes)
    ensures Lower(a) == Lower(b) <==> SameButCase(a, b)
    ensures Lower(Lower(a)) == Lower(a) && SameButCase(a, Lower(a))
  {
    assert |a| == |b| && SameButCase(a, b) ==> Lower(a) == Lower(b);
    if Lower(a) == Lower(b) {
      forall i | 0 <= i < |a|
        ensures SameLetter(a[i], b[i])
      {
        assert Lower(a)[i] == Lower(b)[i];
      }
    }
  }

  function Escape(name: bytes): bytes {
    if name == [] then []
    else if name[0] == DOT || name[0] == BACKSLASH then [BACKSLASH, name[0]] + Escape(name[1..])
    else [name[0]] + Escape(name[1..])
  }

  /** RFC 6763 section 4.3 on an example: `a.b\c` is escaped as `a\.b\\c`. */
  lemma EscapeExample()
    ensures Escape([97, 46, 98, 92, 99]) == [97, 92, 46, 98, 92, 92, 99]
  {
    assert Escape([99]) == [99];
    assert Escape([92, 99]) == [92, 92, 99];
    assert Escape([98, 92, 99]) == [98, 92, 92, 99];
    assert Escape([46, 98, 92, 99]) == [92, 46, 98, 92, 92, 99];
  }

  method EscapeInstanceName(name: bytes) returns (result: bytes)
    ensures result == Escape(name)
  {
    result := [];
    for i := 0 to |name|
      invariant result + Escape(name[i..]) == Escape(name)
    {
      assert name[i..][1..] == name[i + 1..];
      if name[i] == DOT || name[i] == BACKSLASH {
        result := result + [BACKSLASH, name[i]];
      } else {
        result := result + [name[i]];
      }
    }
  }

  method ParseEscapedName(name: bytes) returns (labels: seq<bytes>)
    ensures labels == Scan(name, [])
  {
    labels := [];
    var current: bytes := [];
    var i := 0;
    while i < |name|
      invariant 0 <= i <= |name|
      invariant labels + Scan(name[i..], current) == Scan(name, [])
    {
      var ch := name[i];
      var rest := name[i..];
      assert rest[1..] == name[i + 1..];
      i := i + 1;
      if ch == BACKSLASH {
        if i < |name| && (name[i] == DOT || name[i] == BACKSLASH) {
          assert rest[2..] == name[i + 1..];
          current := current + [name[i]];
          i := i + 1;
        } else {
          current := current + [ch];
        }
      } else if ch == DOT {
        if current != [] {
          labels := labels + [current];
          current := [];
        }
      } else {
        current := current + [ch];
      }
    }
    if current != [] {
      labels := labels + [current];
    }
  }

  lemma {:induction false} JoinIsText(labels: seq<bytes>)
    requires labels != []
    ensures Join(labels) + [DOT] == Text(labels)
  {
    if |labels| == 1 {
      assert Text(labels[1..]) == [];
    } else {
      JoinIsText(labels[1..]);
      assert labels[0] + [DOT] + Join(labels[1..]) + [DOT] == labels[0] + [DOT] + (Join(labels[1..]) + [DOT]);
    }
  }

  lemma {:induction false} LabelsNotEmpty(s: bytes, current: bytes)
    ensures [] !in Scan(s, current)
    decreases |s|
  {
    if s == [] {
    } else if s[0] == BACKSLASH && |s| > 1 && (s[1] == DOT || s[1] == BACKSLASH) {
      LabelsNotEmpty(s[2..], current + [s[1]]);
    } else if s[0] == DOT {
      LabelsNotEmpty(s[1..], []);
    } else {
      LabelsNotEmpty(s[1..], current + [s[0]]);
    }
  }

  /** The scanner undoes the escaping of one label, up to the separator that follows it. */
  lemma {:induction false} ScanEscaped(instance: bytes, current: bytes, rest: bytes)
    ensures Scan(Escape(instance) + [DOT] + rest, current) == Close(current + instance) + Scan(rest, [])
    decreases |instance|
  {
    hide Scan, Close;
    var s := Escape(instance) + [DOT] + rest;
    if instance == [] {
      assert s == [DOT] + rest;
      ScanDot(rest, current);
      assert current + instance == current;
    } else {
      var tail := Escape(instance[1..]) + [DOT] + rest;
      ScanEscaped(instance[1..], current + [instance[0]], rest);
      assert current + [instance[0]] + instance[1..] == current + instance;
      if instance[0] == DOT || instance[0] == BACKSLASH {
        assert s == [BACKSLASH, instance[0]] + tail;
        ScanPair(instance[0], tail, current);
      } else {
        assert s == [instance[0]] + tail;
        ScanByte(instance[0], tail, current);
      }
    }
  }

  lemma ScanDot(rest: bytes, current: bytes)
    ensures Scan([DOT] + rest, current) == Close(current) + Scan(rest, [])
  {
    assert ([DOT] + rest)[1..] == rest;
  }

  lemma ScanPair(b: byte, rest: bytes, current: bytes)
    requires b == DOT || b == BACKSLASH
    ensures Scan([BACKSLASH, b] + rest, current) == Scan(rest, current + [b])
  {
    assert ([BACKSLASH, b] + rest)[2..] == rest;
  }

  lemma ScanByte(b: byte, rest: bytes, current: bytes)
    requires b != DOT && b != BACKSLASH
    ensures Scan([b] + rest, current) == Scan(rest, current + [b])
  {
    assert ([b] + rest)[1..] == rest;
  }

  /**
   * RFC 6763 section 4.3: whatever dots and backslashes an instance name holds, escaping it
   * and joining it to a service type keeps it one label, in front of the labels of the type.
   */
  lemma {:induction false} InstanceStaysOneLabel(instance: bytes, ty: bytes)
    requires ty != []
    ensures Labels(Escape(instance) + [DOT] + ty) == Close(instance) + Labels(ty)
  {
    var full := Escape(instance) + [DOT] + ty;
    if ty[|ty| - 1] == DOT {
      assert StripDot(full) == Escape(instance) + [DOT] + StripDot(ty);
    } else {
      assert StripDot(full) == full;
    }
    ScanEscaped(instance, [], StripDot(ty));
    assert [] + instance == instance;
  }

  predicate Plain(s: bytes) {
    BACKSLASH !in s && DOT !in s && s != []
  }

  lemma {:induction false} ScanPlain(piece: bytes, current: bytes, rest: bytes)
    requires BACKSLASH !in piece && DOT !in piece
    requires rest == [] || rest[0] == DOT
    ensures Scan(piece + rest, current) == Scan(rest, current + piece)
    decreases |piece|
  {
    if piece == [] {
      assert piece + rest == rest && current + piece == current;
    } else {
      var s := piece + rest;
      assert s[1..] == piece[1..] + rest;
      assert piece[0] in piece;
      ScanPlain(piece[1..], current + [piece[0]], rest);
      assert current + [piece[0]] + piece[1..] == current + piece;
    }
  }

  lemma {:induction false} ScanJoin(labels: seq<bytes>)
    requires labels != [] && forall l <- labels :: Plain(l)
    ensures Scan(Join(labels), []) == labels
  {
    assert labels[0] in labels;
    if |labels| == 1 {
      ScanPlain(labels[0], [], []);
      assert Scan([], labels[0]) == [labels[0]];
      assert labels[0] + [] == labels[0] && [] + labels[0] == labels[0];
    } else {
      var tail := [DOT] + Join(labels[1..]);
      assert Join(labels) == labels[0] + tail;
      assert tail[1..] == Join(labels[1..]);
      ScanPlain(labels[0], [], tail);
      assert [] + labels[0] == labels[0];
      assert forall l <- labels[1..] :: l in labels;
      ScanJoin(labels[1..]);
      assert labels == [labels[0]] + labels[1..];
    }
  }

  /**
   * Reading a name back and sending it again changes nothing, as long as no label holds a dot or
   * a backslash: the text that the reader returns has the same labels.
   */
  lemma TextRoundTrip(labels: seq<bytes>)
    requires forall l <- labels :: Plain(l)
    ensures Labels(Text(labels)) == labels
  {
    if labels != [] {
      JoinIsText(labels);
      assert StripDot(Text(labels)) == Join(labels);
      ScanJoin(labels);
    }
  }

  // ----- Names that come back as they are -----

  /** The reader of the wire form returns the very name that was written. */
  predicate Canonical(name: bytes) {
    Dotted(name) == name
  }

  lemma {:induction false} TextConcat(a: seq<bytes>, b: seq<bytes>)
    ensures Text(a + b) == Text(a) + Text(b)
  {
    if a == [] {
      assert a + b == b;
    } else {
      assert (a + b)[1..] == a[1..] + b;
      TextConcat(a[1..], b);
    }
  }

  lemma CloseText(current: bytes)
    ensures Text(Close(current)) == if current == [] then [] else current + [DOT]
  {
    if current != [] {
      assert Close(current)[1..] == [];
      assert Text([]) == [];
    }
  }

  /** Scanning never makes a name longer; if it takes nothing away, all dots are separators. */
  lemma {:induction false} ScanShrinks(s: bytes, current: bytes)
    ensures |Text(Scan(s, current))| <= |current| + |s| + 1
    ensures |Text(Scan(s, current))| == |current| + |s| + 1 ==>
              && Text(Scan(s, current)) == current + s + [DOT]
              && (DOT !in current ==> forall l <- Scan(s, current) :: DOT !in l)
    decreases |s|
  {
    hide Text, Close;
    CloseText(current);
    if s == [] {
      assert current + s == current;
      CloseLabels(current);
    } else if s[0] == BACKSLASH && |s| > 1 && (s[1] == DOT || s[1] == BACKSLASH) {
      ScanShrinks(s[2..], current + [s[1]]);
    } else if s[0] == DOT {
      ScanShrinks(s[1..], []);
      TextConcat(Close(current), Scan(s[1..], []));
      CloseLabels(current);
      assert current + s + [DOT] == current + [DOT] + ([] + s[1..] + [DOT]);
    } else {
      ScanShrinks(s[1..], current + [s[0]]);
      assert current + [s[0]] + s[1..] == current + s;
    }
  }

  lemma CloseLabels(current: bytes)
    ensures DOT !in current ==> forall l <- Close(current) :: DOT !in l
  {
  }

  lemma {:induction false} TextEnds(labels: seq<bytes>)
    ensures Text(labels) != [] ==> Text(labels)[|Text(labels)| - 1] == DOT
  {
    if labels != [] {
      TextEnds(labels[1..]);
    }
  }

  lemma DottedShrinks(name: bytes)
    ensures Dotted(name) != [] ==> Dotted(name)[|Dotted(name)| - 1] == DOT
    ensures Dotted([]) == []
    ensures name != [] && name[|name| - 1] == DOT ==>
              |Dotted(name)| <= |name| && (|Dotted(name)| == |name| ==> Dotted(name) == name)
  {
    TextEnds(Labels(name));
    NothingScanned();
    ScanShrinks(StripDot(name), []);
    hide Scan, Text;
    if name != [] && name[|name| - 1] == DOT {
      assert [] + StripDot(name) + [DOT] == name;
    }
  }

  /** What the reader returns for a name, it returns for that again only if it is the name itself. */
  lemma DottedTwice(name: bytes)
    ensures Dotted(Dotted(name)) == name <==> Canonical(name)
  {
    hide Dotted;
    DottedShrinks(name);
    DottedShrinks(Dotted(name));
  }

  lemma NothingScanned()
    ensures Text(Labels([])) == []
  {
    assert StripDot([]) == [];
    assert Scan([], []) == [];
  }

  /** No label of such a name holds a dot. */
  lemma CanonicalLabels(name: bytes)
    requires Canonical(name)
    ensures forall l <- Labels(name) :: DOT !in l
  {
    hide Scan;
    var labels := Labels(name);
    if name == [] {
      assert StripDot(name) == [];
      ScanOfNothing();
    } else {
      TextEnds(labels);
      ScanShrinks(StripDot(name), []);
    }
  }

  lemma ScanOfNothing()
    ensures Scan([], []) == []
  {
  }

  lemma {:induction false} EscapeGrows(name: bytes)
    ensures |Escape(name)| >= |name|
    ensures |Escape(name)| == |name| <==> DOT !in name && BACKSLASH !in name
  {
    if name != [] {
      EscapeGrows(name[1..]);
      assert forall b: byte :: b in name <==> b == name[0] || b in name[1..];
    }
  }

  /** A service that was given an instance name with a dot or a backslash has a name that does not come back. */
  lemma EscapedIsNotCanonical(instance: bytes, ty: bytes)
    requires ty != [] && (DOT in instance || BACKSLASH in instance)
    ensures !Canonical(Escape(instance) + [DOT] + ty)
  {
    hide Scan, Text, Escape, Canonical;
    var name := Escape(instance) + [DOT] + ty;
    if Canonical(name) {
      InstanceStaysOneLabel(instance, ty);
      EscapeGrows(instance);
      TextConcat(Close(instance), Labels(ty));
      CloseText(instance);
      CanonicalText(name);
      TextEnds(Labels(name));
      assert name[|name| - 1] == ty[|ty| - 1] == DOT;
      ScanShrinks(StripDot(ty), []);
    }
  }

  lemma CanonicalText(name: bytes)
    requires Canonical(name)
    ensures Text(Labels(name)) == name
  {
  }
}
