// utf8_to_16le and string_transform: UTF-8 in, UTF-16LE out.

module Utf8 {
  import opened Common

  // RFC 3629, section 3: the characters, and the bytes of each.
  predicate Scalar(c: nat) {
    c < 0xD800 || 0xDFFF < c <= 0x10_FFFF
  }

  function Encode8(c: nat): seq<byte>
    requires Scalar(c)
  {
    if c < 0x80 then [c]
    else if c < 0x800 then [0xC0 + c / 64, 0x80 + c % 64]
    else if c < 0x1_0000 then [0xE0 + c / 4096, 0x80 + c / 64 % 64, 0x80 + c % 64]
    else [0xF0 + c / 262144, 0x80 + c / 4096 % 64, 0x80 + c / 64 % 64, 0x80 + c % 64]
  }

  ghost predicate Scalars(s: seq<nat>) {
    forall i :: 0 <= i < |s| ==> Scalar(s[i])
  }

  function Text8(s: seq<nat>): seq<byte>
    requires forall i :: 0 <= i < |s| ==> Scalar(s[i])
  {
    if s == [] then [] else Encode8(s[0]) + Text8(s[1..])
  }

  // RFC 2781, section 2.1, little-endian.
  function Encode16(c: nat): (r: seq<byte>)
    requires Scalar(c)
    ensures |r| == 2 || |r| == 4
  {
    if c < 0x1_0000 then Short(c) else Short(0xD800 + (c - 0x1_0000) / 1024) + Short(0xDC00 + (c - 0x1_0000) % 1024)
  }

  function Short(u: nat): (r: seq<byte>)
    requires u < 0x1_0000
    ensures |r| == 2
  {
    [u % 256, u / 256]
  }

  function Text16(s: seq<nat>): seq<byte>
    requires forall i :: 0 <= i < |s| ==> Scalar(s[i])
  {
    if s == [] then [] else Text16(s[..|s| - 1]) + Encode16(s[|s| - 1])
  }

  // RFC 2781, section 2.2: decoding.
  function Unit(b: seq<byte>): nat
    requires |b| >= 2
  {
    var low: nat, high: nat := b[0], b[1];
    low + 256 * high
  }

  function Decode16(b: seq<byte>): Option<seq<nat>> {
    if b == [] then Some([])
    else if |b| < 2 then None
    else
      var w := Unit(b);
      if w < 0xD800 || w > 0xDFFF then Prepend(w, Decode16(b[2..]))
      else if w > 0xDBFF || |b| < 4 then None
      else
        var w2 := Unit(b[2..]);
        if w2 < 0xDC00 || w2 > 0xDFFF then None
        else Prepend((w - 0xD800) * 1024 + (w2 - 0xDC00) + 0x1_0000, Decode16(b[4..]))
  }

  function Prepend(c: nat, rest: Option<seq<nat>>): Option<seq<nat>> {
    if rest == None then None else Some([c] + rest.value)
  }

  // The output decodes to the characters.
  lemma {:induction false} Decode16Text16(s: seq<nat>, b: seq<byte>, t: seq<nat>)
    requires Scalars(s) && Decode16(b) == Some(t)
    ensures Decode16(Text16(s) + b) == Some(s + t)
    decreases |s|
  {
    hide Decode16, Encode16;
    if s == [] {
      assert Text16(s) + b == b && s + t == t;
    } else {
      var n := |s| - 1;
      var c, u := s[n], s[..n];
      Decode16One(c, b);
      Decode16Text16(u, Encode16(c) + b, [c] + t);
      assert Text16(s) + b == Text16(u) + (Encode16(c) + b);
      assert s + t == u + ([c] + t);
    }
  }

  lemma Decode16One(c: nat, b: seq<byte>)
    requires Scalar(c)
    ensures Decode16(Encode16(c) + b) == Prepend(c, Decode16(b))
  {
    var d := Encode16(c) + b;
    if c < 0x1_0000 {
      assert Unit(d) == c && d[2..] == b;
    } else {
      var x := c - 0x1_0000;
      assert d[2..][0] == d[2] && d[2..][1] == d[3];
      assert Unit(d) == 0xD800 + x / 1024 && Unit(d[2..]) == 0xDC00 + x % 1024;
      assert d[4..] == b;
    }
  }

  // The state between two bytes: more continuation bytes of a character are still to come.
  datatype State = Ready | Need(more: nat, v: nat, vmin: nat)

  datatype Step = Reject | Go(next: State) | Emit(c: nat)

  // What one byte does.
  function Next(st: State, c: byte): Step {
    if st.Need? then
      if c / 64 != 2 then Reject
      else
        var v := st.v * 64 + c % 64;
        if st.more > 1 then Go(Need(st.more - 1, v, st.vmin))
        else if v < st.vmin || v > 0x10_FFFF || 0xD800 <= v <= 0xDFFF then Reject
        else Emit(v)
    else if c < 0x80 then Emit(c)
    else if c < 0xC0 || c >= 0xFE then Reject
    else if c < 0xE0 then Go(Need(1, c % 32, 0x80))
    else if c < 0xF0 then Go(Need(2, c % 16, 0x800))
    else if c < 0xF8 then Go(Need(3, c % 8, 0x1_0000))
    else if c < 0xFC then Go(Need(4, c % 4, 0x20_0000))
    else Go(Need(5, c % 2, 0x400_0000))
  }

  // The characters of a whole text, behind those read before.
  function Read(b: seq<byte>, st: State, acc: seq<nat>): Option<seq<nat>> {
    if b == [] then if st.Ready? then Some(acc) else None
    else
      match Next(st, b[0])
      case Reject => None
      case Go(next) => Read(b[1..], next, acc)
      case Emit(c) => Read(b[1..], Ready, acc + [c])
  }

  lemma {:induction false} ReadKeeps(b: seq<byte>, st: State, acc: seq<nat>)
    requires Scalars(acc) && (st.Need? ==> st.vmin > 0x7F)
    ensures Read(b, st, acc).Some? ==> acc <= Read(b, st, acc).value && Scalars(Read(b, st, acc).value)
  {
    if b != [] {
      match Next(st, b[0])
      case Reject =>
      case Go(next) => ReadKeeps(b[1..], next, acc);
      case Emit(c) => ReadKeeps(b[1..], Ready, acc + [c]);
    }
  }

  // One encoded character is read as such.
  lemma ReadOne(c: nat, b: seq<byte>, acc: seq<nat>)
    requires Scalar(c)
    ensures Read(Encode8(c) + b, Ready, acc) == Read(b, Ready, acc + [c])
  {
    hide Read;
    var d := Encode8(c) + b;
    assert d[|Encode8(c)|..] == b;
    Lead(d, acc);
    if c < 0x80 {
    } else if c < 0x800 {
      assert Next(Ready, d[0]) == Go(Need(1, c / 64, 0x80));
      Follow1(d, 1, c / 64, 0x80, c, acc);
    } else if c < 0x1_0000 {
      ReadThree(c, d, acc);
    } else {
      ReadFour(c, d, acc);
    }
  }

  lemma ReadThree(c: nat, d: seq<byte>, acc: seq<nat>)
    requires 0x800 <= c < 0x1_0000 && Scalar(c) && |d| >= 3 && d[..3] == Encode8(c)
    ensures Read(d, Ready, acc) == Read(d[3..], Ready, acc + [c])
  {
    hide Read;
    assert d[0] == d[..3][0] && d[1] == d[..3][1] && d[2] == d[..3][2];
    Lead(d, acc);
    Pieces(c);
    Follow(d, 1, 2, c / 4096, 0x800, acc);
    Follow1(d, 2, c / 64, 0x800, c, acc);
  }

  lemma ReadFour(c: nat, d: seq<byte>, acc: seq<nat>)
    requires 0x1_0000 <= c && Scalar(c) && |d| >= 4 && d[..4] == Encode8(c)
    ensures Read(d, Ready, acc) == Read(d[4..], Ready, acc + [c])
  {
    hide Read;
    assert d[0] == d[..4][0] && d[1] == d[..4][1] && d[2] == d[..4][2] && d[3] == d[..4][3];
    Lead(d, acc);
    Pieces(c);
    Follow(d, 1, 3, c / 262144, 0x1_0000, acc);
    Follow(d, 2, 2, c / 4096, 0x1_0000, acc);
    Follow1(d, 3, c / 64, 0x1_0000, c, acc);
  }

  lemma Pieces(c: nat)
    ensures c / 262144 * 64 + c / 4096 % 64 == c / 4096 && c / 4096 * 64 + c / 64 % 64 == c / 64
    ensures c / 64 * 64 + c % 64 == c
  {
  }

  lemma Lead(d: seq<byte>, acc: seq<nat>)
    requires d != []
    ensures
      var step := Next(Ready, d[0]);
      && (step.Go? ==> Read(d, Ready, acc) == Read(d[1..], step.next, acc))
      && (step.Emit? ==> Read(d, Ready, acc) == Read(d[1..], Ready, acc + [step.c]))
  {
  }

  lemma Follow(d: seq<byte>, i: nat, more: nat, v: nat, vmin: nat, acc: seq<nat>)
    requires i < |d| && d[i] / 64 == 2 && more > 1
    ensures Read(d[i..], Need(more, v, vmin), acc) == Read(d[i + 1..], Need(more - 1, v * 64 + d[i] % 64, vmin), acc)
  {
    assert d[i..][1..] == d[i + 1..];
  }

  lemma Follow1(d: seq<byte>, i: nat, v: nat, vmin: nat, c: nat, acc: seq<nat>)
    requires i < |d| && d[i] / 64 == 2 && v * 64 + d[i] % 64 == c && Scalar(c) && c >= vmin
    ensures Read(d[i..], Need(1, v, vmin), acc) == Read(d[i + 1..], Ready, acc + [c])
  {
    assert d[i..][1..] == d[i + 1..];
  }

  lemma {:induction false} ReadText(s: seq<nat>, acc: seq<nat>)
    requires Scalars(s)
    ensures Read(Text8(s), Ready, acc) == Some(acc + s)
  {
    if s == [] {
      assert acc + s == acc;
    } else {
      ReadOne(s[0], Text8(s[1..]), acc);
      ReadText(s[1..], acc + [s[0]]);
      assert acc + [s[0]] + s[1..] == acc + s;
    }
  }

  // Whatever is accepted starts with one encoded character.
  lemma FirstCharacter(b: seq<byte>, acc: seq<nat>) returns (c: nat)
    requires b != [] && Read(b, Ready, acc).Some?
    ensures Scalar(c) && 0 < |Encode8(c)| <= |b| && b[..|Encode8(c)|] == Encode8(c)
    ensures Read(b, Ready, acc) == Read(b[|Encode8(c)|..], Ready, acc + [c])
  {
    match Next(Ready, b[0])
    case Emit(d) => c := d;
    case Go(st) =>
      c := Continue(b, 1, st, acc);
      Shortest(b, c);
  }

  // The continuation bytes up to the end of a character.
  lemma {:induction false} Continue(b: seq<byte>, i: nat, st: State, acc: seq<nat>) returns (c: nat)
    requires st.Need? && st.more > 0 && i <= |b| && Read(b[i..], st, acc).Some?
    ensures i + st.more <= |b| && Scalar(c) && c >= st.vmin
    ensures forall j :: i <= j < i + st.more ==> b[j] / 64 == 2
    ensures c == Value(b, i, i + st.more, st.v)
    ensures Read(b[i..], st, acc) == Read(b[i + st.more..], Ready, acc + [c])
    decreases st.more
  {
    assert b[i..] != [];
    assert b[i..][1..] == b[i + 1..];
    if st.more == 1 {
      c := st.v * 64 + b[i] % 64;
      assert Value(b, i, i + 1, st.v) == Value(b, i, i, st.v) * 64 + b[i] % 64;
    } else {
      var next := Need(st.more - 1, st.v * 64 + b[i] % 64, st.vmin);
      c := Continue(b, i + 1, next, acc);
      ValueFirst(b, i, i + st.more, st.v);
    }
  }

  function Value(b: seq<byte>, i: nat, j: nat, v: nat): nat
    requires i <= j <= |b|
  {
    if j == i then v else Value(b, i, j - 1, v) * 64 + b[j - 1] % 64
  }

  lemma {:induction false} ValueFirst(b: seq<byte>, i: nat, j: nat, v: nat)
    requires i < j <= |b|
    ensures Value(b, i, j, v) == Value(b, i + 1, j, v * 64 + b[i] % 64)
    decreases j
  {
    if j > i + 1 {
      ValueFirst(b, i, j - 1, v);
    }
  }

  // The bytes of an accepted character are the ones that encode it.
  lemma Shortest(b: seq<byte>, c: nat)
    requires b != [] && Scalar(c) && Next(Ready, b[0]).Go?
    requires
      var st := Next(Ready, b[0]).next;
      && 1 + st.more <= |b| && c >= st.vmin && c == Value(b, 1, 1 + st.more, st.v)
      && forall j :: 1 <= j < 1 + st.more ==> b[j] / 64 == 2
    ensures |Encode8(c)| == 1 + Next(Ready, b[0]).next.more && b[..|Encode8(c)|] == Encode8(c)
  {
    hide Value, Six;
    var n := Next(Ready, b[0]).next.more;
    var lead: nat := b[0];
    ValueSteps(b, n, Next(Ready, b[0]).next.v);
    if n == 1 {
      Bytes2(lead, b[1], c);
      assert b[..2] == Encode8(c);
    } else if n == 2 {
      Bytes3(lead, b[1], b[2], c);
      assert b[..3] == Encode8(c);
    } else if n == 3 {
      Bytes4(lead, b[1], b[2], b[3], c);
      assert b[..4] == Encode8(c);
    }
  }

  function Six(x: nat): nat {
    x % 64
  }

  lemma ValueSteps(b: seq<byte>, n: nat, v: nat)
    requires 1 <= n && n < |b|
    ensures n == 1 ==> Value(b, 1, 2, v) == v * 64 + Six(b[1])
    ensures n == 2 ==> Value(b, 1, 3, v) == (v * 64 + Six(b[1])) * 64 + Six(b[2])
    ensures n == 3 ==> Value(b, 1, 4, v) == ((v * 64 + Six(b[1])) * 64 + Six(b[2])) * 64 + Six(b[3])
  {
    assert Value(b, 1, 1, v) == v;
    assert Value(b, 1, 2, v) == v * 64 + Six(b[1]);
    if n >= 2 {
      assert Value(b, 1, 3, v) == (v * 64 + Six(b[1])) * 64 + Six(b[2]);
    }
  }

  lemma Bytes2(a: nat, x: nat, c: nat)
    requires 0xC0 <= a < 0xE0 && x / 64 == 2 && c == a % 32 * 64 + Six(x)
    ensures c < 0x800 && 0xC0 + c / 64 == a && 0x80 + c % 64 == x
  {
  }

  lemma Bytes3(a: nat, x: nat, y: nat, c: nat)
    requires 0xE0 <= a < 0xF0 && x / 64 == 2 && y / 64 == 2 && c == (a % 16 * 64 + Six(x)) * 64 + Six(y)
    ensures c < 0x1_0000 && 0xE0 + c / 4096 == a && 0x80 + c / 64 % 64 == x && 0x80 + c % 64 == y
  {
    assert c / 64 == a % 16 * 64 + Six(x);
  }

  lemma Bytes4(a: nat, x: nat, y: nat, z: nat, c: nat)
    requires 0xF0 <= a < 0xF8 && x / 64 == 2 && y / 64 == 2 && z / 64 == 2
    requires c == ((a % 8 * 64 + Six(x)) * 64 + Six(y)) * 64 + Six(z)
    ensures 0xF0 + c / 262144 == a && 0x80 + c / 4096 % 64 == x && 0x80 + c / 64 % 64 == y && 0x80 + c % 64 == z
  {
    assert c / 64 == (a % 8 * 64 + Six(x)) * 64 + Six(y);
    assert c / 64 / 64 == a % 8 * 64 + Six(x);
    assert c / 4096 == a % 8 * 64 + Six(x);
  }

  // Exactly the well-formed texts are accepted, and they are read as what they encode.
  lemma {:induction false} ReadIsText(b: seq<byte>, acc: seq<nat>) returns (s: seq<nat>)
    requires Read(b, Ready, acc).Some?
    ensures Scalars(s) && b == Text8(s) && Read(b, Ready, acc) == Some(acc + s)
  {
    hide Read, Encode8;
    if b == [] {
      s := [];
      ReadEnd(Ready, acc);
      assert acc + s == acc;
    } else {
      var c := FirstCharacter(b, acc);
      var n := |Encode8(c)|;
      var t := ReadIsText(b[n..], acc + [c]);
      s := [c] + t;
      assert s[1..] == t && b == b[..n] + b[n..];
      assert acc + [c] + t == acc + s;
    }
  }

  lemma AcceptsExactly(b: seq<byte>, s: seq<nat>)
    ensures Read(b, Ready, []) == Some(s) <==> Scalars(s) && b == Text8(s)
  {
    if Scalars(s) && b == Text8(s) {
      ReadText(s, []);
      assert [] + s == s;
    }
    if Read(b, Ready, []) == Some(s) {
      var t := ReadIsText(b, []);
      assert [] + t == t;
    }
  }

  lemma Text16Grows(s: seq<nat>, t: seq<nat>)
    requires Scalars(t) && s <= t
    ensures |Text16(s)| <= |Text16(t)|
    decreases |t|
  {
    if |s| < |t| {
      Text16Grows(s, t[..|t| - 1]);
    } else {
      assert s == t;
    }
  }

  lemma Text16More(s: seq<nat>, c: nat)
    requires Scalars(s) && Scalar(c)
    ensures Text16(s + [c]) == Text16(s) + Encode16(c)
  {
    assert (s + [c])[..|s|] == s;
  }

  method WriteShort(op: array<byte>, at: nat, u: nat)
    requires at + 2 <= op.Length && u < 0x1_0000
    modifies op
    ensures op[..at + 2] == old(op[..at]) + Short(u) && op[at + 2..] == old(op[at + 2..])
  {
    op[at] := u % 256;
    op[at + 1] := u / 256;
  }

  // EMIT: one unit, or two for a character above the basic plane.
  method EmitUnits(op: array?<byte>, outlen: nat, v: nat) returns (n: nat)
    requires Scalar(v) && (op != null ==> 2 * outlen + |Encode16(v)| <= op.Length)
    modifies op
    ensures 2 * n == 2 * outlen + |Encode16(v)|
    ensures op != null ==> op[..2 * n] == old(op[..2 * outlen]) + Encode16(v) && op[2 * n..] == old(op[2 * n..])
  {
    n := outlen;
    if v > 0xFFFF {
      if op != null {
        WriteShort(op, 2 * n, 0xD800 + (v - 0x1_0000) / 1024);
      }
      n := n + 1;
      if op != null {
        ghost var s := op[..];
        WriteShort(op, 2 * n, 0xDC00 + (v - 0x1_0000) % 1024);
        assert op[2 * n + 2..] == s[2 * n..][2..];
      }
      n := n + 1;
    } else {
      if op != null {
        WriteShort(op, 2 * n, v);
      }
      n := n + 1;
    }
  }

  lemma ReadStep(b: seq<byte>, i: nat, st: State, acc: seq<nat>)
    requires i < |b|
    ensures
      var step := Next(st, b[i]);
      && (step.Reject? ==> Read(b[i..], st, acc) == None)
      && (step.Go? ==> Read(b[i..], st, acc) == Read(b[i + 1..], step.next, acc))
      && (step.Emit? ==> Read(b[i..], st, acc) == Read(b[i + 1..], Ready, acc + [step.c]))
  {
    assert b[i..][1..] == b[i + 1..];
  }

  lemma StepKeeps(st: State, c: byte)
    requires st.Need? ==> st.vmin > 0x7F && st.more > 0
    ensures Next(st, c).Go? ==> Next(st, c).next.Need? && Next(st, c).next.vmin > 0x7F && Next(st, c).next.more > 0
    ensures Next(st, c).Emit? ==> Scalar(Next(st, c).c)
  {
  }

  lemma ReadEnd(st: State, acc: seq<nat>)
    ensures Read([], st, acc) == if st.Ready? then Some(acc) else None
  {
  }

  lemma NothingYet()
    ensures Text16([]) == []
  {
  }

  // The characters of an accepted text.
  lemma ReadScalars(b: seq<byte>)
    ensures Read(b, Ready, []).Some? ==> Scalars(Read(b, Ready, []).value)
  {
    ReadKeeps(b, Ready, []);
  }

  // What the transform stores: nothing for a malformed text.
  ghost function Output(b: seq<byte>): Option<seq<byte>> {
    ReadScalars(b);
    match Read(b, Ready, [])
    case None => None
    case Some(s) => Some(Text16(s))
  }

  // Without a buffer the length is only counted; with one the text is written, and nothing behind it.
  method Utf8To16le(str: seq<byte>, op: array?<byte>) returns (len: int)
    requires op != null ==> Output(str).Some? && op.Length >= |Output(str).value|
    modifies op
    ensures
      match Output(str)
      case None => len == -1
      case Some(b) =>
        && len == |b|
        && (op != null ==> op[..len] == b && op[len..] == old(op[len..]))
  {
    hide Read, Next, Text16, Encode16;
    var i, outlen, st := 0, 0, Ready;
    ghost var acc: seq<nat> := [];
    ghost var whole := Read(str, Ready, []);
    assert str[0..] == str;
    NothingYet();
    ReadScalars(str);
    while i < |str|
      invariant i <= |str| && Scalars(acc) && (st.Need? ==> st.vmin > 0x7F && st.more > 0)
      invariant whole == Read(str[i..], st, acc) && 2 * outlen == |Text16(acc)|
      invariant op != null ==> 2 * outlen <= op.Length && op[..2 * outlen] == Text16(acc)
      invariant op != null ==> op[2 * outlen..] == old(op[2 * outlen..])
    {
      var c := str[i];
      ReadStep(str, i, st, acc);
      StepKeeps(st, c);
      i := i + 1;
      var step := Next(st, c);
      if step.Reject? {
        return -1;
      } else if step.Go? {
        st := step.next;
      } else {
        st := Ready;
        Text16More(acc, step.c);
        ReadKeeps(str[i..], Ready, acc + [step.c]);
        if whole.Some? {
          Text16Grows(acc + [step.c], whole.value);
        }
        outlen := EmitUnits(op, outlen, step.c);
        acc := acc + [step.c];
      }
    }
    assert str[i..] == [];
    ReadEnd(st, acc);
    len := if st.Ready? then 2 * outlen else -1;
  }

  // The two passes agree: the buffer of the second has room for exactly what the first has counted, and a zero.
  method StringTransform(str: seq<byte>) returns (len: int, out: array?<byte>)
    ensures
      match Output(str)
      case None => len == -1 && out == null
      case Some(b) => len == |b| && out != null && fresh(out) && out[..] == b + [0]
  {
    len := Utf8To16le(str, null);
    out := null;
    if len != -1 {
      out := new byte[len + 1](_ => 0);
      out[len] := 0;
      len := Utf8To16le(str, out);
      assert out[len..] == [0];
      assert out[..] == out[..len] + out[len..];
    }
  }

  // Round trip: the stored bytes decode to the characters that the input encodes.
  lemma OutputDecodes(b: seq<byte>, s: seq<nat>)
    requires Scalars(s) && b == Text8(s)
    ensures Output(b) == Some(Text16(s)) && Decode16(Text16(s)) == Some(s)
  {
    AcceptsExactly(b, s);
    Decode16Text16(s, [], []);
    assert Text16(s) + [] == Text16(s) && s + [] == s;
  }

  // The examples of RFC 3629, section 7, and RFC 2781, section 4.
  lemma Examples()
    ensures Text8([0x41, 0x2262, 0x391, 0x2E]) == [0x41, 0xE2, 0x89, 0xA2, 0xCE, 0x91, 0x2E]
    ensures Encode8(0x233B4) == [0xF0, 0xA3, 0x8E, 0xB4]
    ensures Encode16(0x12345) == [0x08, 0xD8, 0x45, 0xDF] && Encode16(0x3D) == [0x3D, 0]
  {
    assert [0x41, 0x2262, 0x391, 0x2E][1..] == [0x2262, 0x391, 0x2E];
    assert [0x2262, 0x391, 0x2E][1..] == [0x391, 0x2E] && [0x391, 0x2E][1..] == [0x2E];
    assert Text8([0x2E]) == [0x2E];
    assert Text8([0x391, 0x2E]) == [0xCE, 0x91, 0x2E];
    assert Text8([0x2262, 0x391, 0x2E]) == [0xE2, 0x89, 0xA2, 0xCE, 0x91, 0x2E];
  }
}
