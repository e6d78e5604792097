/** The guest registers as the bytes of the thread context: nine 32-bit registers and
    six 16-bit segment registers in a row, and the names under which instructions see
    parts of them. A view may overlap another: AL and AH lie inside AX, AX inside EAX. */
module RegisterFile {
  import opened Words

  datatype FERegisterName =
    | EAX | AX | AL | AH
    | EBX | BX | BL | BH
    | ECX | CX | CL | CH
    | EDX | DX | DL | DH
    | ESI | SI | EDI | DI | EBP | BP | ESP | SP | EIP | IP
    | CS | DS | ES | FS | GS | SS

  datatype FEBitWidth = k8bit | k16bit | k32bit {
    function Bytes(): (n: nat)
      ensures 1 <= n <= 4
    {
      match this
      case k8bit => 1
      case k16bit => 2
      case k32bit => 4
    }
  }

  const SIZE := 48

  /** Where the view starts in the thread context, as `regMap` has it. */
  function Offset(name: FERegisterName): (k: nat)
    ensures k + 2 <= SIZE
  {
    match name
    case EAX => 0 case AX => 0 case AL => 0 case AH => 1
    case EBX => 4 case BX => 4 case BL => 4 case BH => 5
    case ECX => 8 case CX => 8 case CL => 8 case CH => 9
    case EDX => 12 case DX => 12 case DL => 12 case DH => 13
    case ESI => 16 case SI => 16
    case EDI => 20 case DI => 20
    case EBP => 24 case BP => 24
    case ESP => 28 case SP => 28
    case EIP => 32 case IP => 32
    case CS => 36 case DS => 38 case ES => 40 case FS => 42 case GS => 44 case SS => 46
  }

  /** An access of this width through this name stays inside the registers. */
  predicate InFile(name: FERegisterName, width: FEBitWidth) {
    Offset(name) + width.Bytes() <= SIZE
  }

  type File = s: seq<byte> | |s| == SIZE witness seq(SIZE, _ => 0)

  /** `file` with `bytes` written from `k` on. */
  function Overlay(file: File, k: nat, bytes: seq<byte>): (r: File)
    requires k + |bytes| <= SIZE
    ensures forall i :: 0 <= i < SIZE ==> r[i] == if k <= i < k + |bytes| then bytes[i - k] else file[i]
  {
    file[..k] + bytes + file[k + |bytes|..]
  }

  function Read(file: File, name: FERegisterName, width: FEBitWidth): (v: u32)
    requires InFile(name, width)
  {
    LeFits(file[Offset(name)..Offset(name) + width.Bytes()]);
    LeValue(file[Offset(name)..Offset(name) + width.Bytes()])
  }

  lemma LeFits(s: seq<byte>)
    requires |s| <= 4
    ensures LeValue(s) < 0x1_0000_0000
  {
    hide LeValue;
    Pow2Of32();
    Pow2Grows(8 * |s|, 32);
  }

  /** A write through a view keeps the low bytes of the value. */
  function Write(file: File, name: FERegisterName, value: u32, width: FEBitWidth): (r: File)
    requires InFile(name, width)
  {
    Overlay(file, Offset(name), LeBytes(value, width.Bytes()))
  }

  function EspOf(file: File): u32 { Read(file, ESP, k32bit) }

  function WithEsp(file: File, value: u32): File { Write(file, ESP, value, k32bit) }

  lemma EspInFile()
    ensures InFile(ESP, k32bit)
  {}

  lemma EspReadBack(file: File, value: u32)
    ensures EspOf(WithEsp(file, value)) == value
  {
    hide Read, Write;
    ReadAfterWrite(file, ESP, value, k32bit);
  }

  datatype Access = Access(name: FERegisterName, value: u32, width: FEBitWidth) {
    predicate Ok() { InFile(name, width) }

    predicate Touches(i: int) { Offset(name) <= i < Offset(name) + width.Bytes() }
  }

  predicate OkRun(run: seq<Access>) { forall i :: 0 <= i < |run| ==> run[i].Ok() }

  function Writes(file: File, run: seq<Access>): File
    requires OkRun(run)
    decreases |run|
  {
    if run == [] then file
    else
      var last := run[|run| - 1];
      assert last.Ok();
      Write(Writes(file, run[..|run| - 1]), last.name, last.value, last.width)
  }

  /** Access `j` is the last of the run that touches byte `i`. */
  ghost predicate LastTouch(run: seq<Access>, j: int, i: int) {
    0 <= j < |run| && run[j].Touches(i) && forall k :: j < k < |run| ==> !run[k].Touches(i)
  }

  ghost predicate Untouched(run: seq<Access>, i: int) {
    forall j :: 0 <= j < |run| ==> !run[j].Touches(i)
  }

  lemma {:induction false} UntouchedByteStays(file: File, run: seq<Access>, i: int)
    requires 0 <= i < SIZE && OkRun(run) && Untouched(run, i)
    ensures Writes(file, run)[i] == file[i]
    decreases |run|
  {
    hide Offset, LeBytes;
    if run != [] {
      assert run[|run| - 1].Ok() && !run[|run| - 1].Touches(i);
      UntouchedByteStays(file, run[..|run| - 1], i);
    }
  }

  /** After any run of writes through any views, every byte of the registers is the one
      the last write that touched it put there, or the original one if none did. */
  lemma {:induction false} LastWriteWins(file: File, run: seq<Access>, j: int, i: int)
    requires 0 <= i < SIZE && OkRun(run)
    ensures Untouched(run, i) ==> Writes(file, run)[i] == file[i]
    ensures LastTouch(run, j, i) ==>
              Writes(file, run)[i] == LeBytes(run[j].value, run[j].width.Bytes())[i - Offset(run[j].name)]
    decreases |run|
  {
    hide Offset, LeBytes;
    if Untouched(run, i) {
      UntouchedByteStays(file, run, i);
    } else if LastTouch(run, j, i) {
      var last := run[|run| - 1];
      assert last.Ok();
      if j < |run| - 1 {
        assert !last.Touches(i);
        LastWriteWins(file, run[..|run| - 1], j, i);
      }
    }
  }

  function Truncate(value: u32, width: FEBitWidth): u32 {
    match width
    case k8bit => value % 0x100
    case k16bit => value % 0x1_0000
    case k32bit => value
  }

  /** A view is read back as written, cut to its width. */
  lemma ReadAfterWrite(file: File, name: FERegisterName, value: u32, width: FEBitWidth)
    requires InFile(name, width)
    ensures Read(Write(file, name, value, width), name, width) == Truncate(value, width)
  {
    hide Offset, LeBytes, LeValue, Truncate;
    var n := width.Bytes();
    var r := Write(file, name, value, width);
    assert r[Offset(name)..Offset(name) + n] == LeBytes(value, n);
    LowBytes(value, width);
  }

  lemma LowBytes(v: u32, width: FEBitWidth)
    ensures LeValue(LeBytes(v, width.Bytes())) == Truncate(v, width)
  {
    var t := Truncate(v, width);
    assert LeBytes(t, width.Bytes()) == LeBytes(v, width.Bytes()) by {
      BytesOfValue(v);
      BytesOfValue(v % 0x1_0000);
      BytesOfValue(v % 0x100);
      LowByteTwice(v);
      hide LeBytes;
    }
    hide LeBytes, LeValue;
    Pow2Of32();
    LoadAfterStore(t, width.Bytes());
  }

  lemma LowByteTwice(v: u32)
    ensures v % 0x100 % 0x100 == v % 0x100
    ensures v % 0x1_0000 % 0x100 == v % 0x100 && v % 0x1_0000 / 0x100 % 0x100 == v / 0x100 % 0x100
  {
    var q, w := v / 0x1_0000, v % 0x1_0000;
    var h, l := w / 0x100, w % 0x100;
    ByteIs(v, 0x100 * q + h, l);
    ByteIs(0x100 * q + h, q, h);
    ByteIs(l, 0, l);
    ByteIs(h, 0, h);
  }

  lemma ByteIs(x: int, q: int, r: int)
    requires x == 0x100 * q + r && 0 <= r < 0x100
    ensures x / 0x100 == q && x % 0x100 == r
  {}

  /** Two views share no byte. */
  predicate ShareNoByte(name: FERegisterName, width: FEBitWidth, other: FERegisterName, width': FEBitWidth) {
    Offset(name) + width.Bytes() <= Offset(other) || Offset(other) + width'.Bytes() <= Offset(name)
  }

  /** Views that share no byte do not affect each other. */
  lemma ReadElsewhere(file: File, name: FERegisterName, value: u32, width: FEBitWidth,
                      other: FERegisterName, width': FEBitWidth)
    requires InFile(name, width) && InFile(other, width') && ShareNoByte(name, width, other, width')
    ensures Read(Write(file, name, value, width), other, width') == Read(file, other, width')
  {
    hide Offset, LeBytes, LeValue, Overlay;
    OverlayElsewhere(file, Offset(name), LeBytes(value, width.Bytes()), Offset(other), width'.Bytes());
  }

  lemma OverlayElsewhere(file: File, k: nat, bytes: seq<byte>, i: nat, n: nat)
    requires k + |bytes| <= SIZE && i + n <= SIZE && (k + |bytes| <= i || i + n <= k)
    ensures Overlay(file, k, bytes)[i..i + n] == file[i..i + n]
  {
    hide Overlay;
  }

  // ----- Different registers

  /** The register a name is or is a part of. */
  function RegisterOf(name: FERegisterName): FERegisterName {
    match name
    case AX | AL | AH => EAX
    case BX | BL | BH => EBX
    case CX | CL | CH => ECX
    case DX | DL | DH => EDX
    case SI => ESI
    case DI => EDI
    case BP => EBP
    case SP => ESP
    case IP => EIP
    case _ => name
  }

  /** How wide the view of that name is. */
  function Width(name: FERegisterName): FEBitWidth {
    match name
    case EAX | EBX | ECX | EDX | ESI | EDI | EBP | ESP | EIP => k32bit
    case AL | AH | BL | BH | CL | CH | DL | DH => k8bit
    case _ => k16bit
  }

  /** Views of different registers share no byte, and a view lies within its register. */
  lemma DifferentRegisters(name: FERegisterName, other: FERegisterName)
    ensures InFile(name, Width(name))
    ensures RegisterOf(name) != RegisterOf(other) ==> ShareNoByte(name, Width(name), other, Width(other))
  {
    WithinRegister(name);
    WithinRegister(other);
    if RegisterOf(name) != RegisterOf(other) { RegistersApart(RegisterOf(name), RegisterOf(other)); }
  }

  lemma WithinRegister(name: FERegisterName)
    ensures RegisterOf(RegisterOf(name)) == RegisterOf(name)
    ensures Offset(RegisterOf(name)) <= Offset(name)
    ensures Offset(name) + Width(name).Bytes() <= Offset(RegisterOf(name)) + Width(RegisterOf(name)).Bytes() <= SIZE
  {}

  lemma RegistersApart(name: FERegisterName, other: FERegisterName)
    requires RegisterOf(name) == name && RegisterOf(other) == other && name != other
    ensures ShareNoByte(name, Width(name), other, Width(other))
  {}

  /** A write to a register or to a part of it changes no other register and no part of one:
      not one of the nine 32-bit registers, nor one of the six segment registers. */
  lemma OtherRegistersKept(file: File, name: FERegisterName, value: u32, other: FERegisterName)
    requires RegisterOf(name) != RegisterOf(other)
    ensures InFile(name, Width(name)) && InFile(other, Width(other))
    ensures Read(Write(file, name, value, Width(name)), other, Width(other)) == Read(file, other, Width(other))
  {
    hide RegisterOf, Width, Offset, Read, Write;
    DifferentRegisters(name, other);
    DifferentRegisters(other, name);
    ReadElsewhere(file, name, value, Width(name), other, Width(other));
  }

  predicate HalfOf(half: FERegisterName, whole: FERegisterName) {
    half != whole && RegisterOf(half) == whole && Width(half) == k16bit
  }

  /** AX, BX, CX, DX, SI, DI, BP, SP and IP are the low halves of their registers. */
  lemma ReadHalf(file: File, half: FERegisterName, whole: FERegisterName)
    requires HalfOf(half, whole)
    ensures Width(whole) == k32bit && InFile(whole, k32bit) && InFile(half, k16bit)
    ensures Read(file, half, k16bit) == Read(file, whole, k32bit) % 0x1_0000
  {
    hide *;
    HalfOffset(half, whole);
    ReadLowHalf(file, half, whole);
  }

  lemma ReadLowHalf(file: File, half: FERegisterName, whole: FERegisterName)
    requires InFile(half, k16bit) && InFile(whole, k32bit) && Offset(half) == Offset(whole)
    ensures Read(file, half, k16bit) == Read(file, whole, k32bit) % 0x1_0000
  {
    hide Offset, LeValue, Join;
    var k := Offset(whole);
    var b := file[k..k + 4];
    Parts(b);
    assert file[k..k + 2] == b[..2];
  }

  lemma HalfOffset(half: FERegisterName, whole: FERegisterName)
    requires HalfOf(half, whole)
    ensures Width(whole) == k32bit && Offset(half) == Offset(whole)
    ensures InFile(whole, k32bit) && InFile(half, k16bit)
  {}

  // ----- Runs of writes, as the views see them

  /** Write `j` is to this view, and later writes share no byte with it. */
  ghost predicate LastWriteTo(run: seq<Access>, j: int, name: FERegisterName, width: FEBitWidth) {
    && 0 <= j < |run| && run[j].name == name && run[j].width == width
    && forall k :: j < k < |run| ==> ShareNoByte(run[k].name, run[k].width, name, width)
  }

  ghost predicate NeverWritten(run: seq<Access>, name: FERegisterName, width: FEBitWidth) {
    forall k :: 0 <= k < |run| ==> ShareNoByte(run[k].name, run[k].width, name, width)
  }

  /** After any run of writes a view reads as the last write to it left it, if later ones were
      elsewhere, and as before if all were. */
  lemma {:induction false} ReadAfterWrites(file: File, run: seq<Access>, j: int, name: FERegisterName,
                                           width: FEBitWidth)
    requires OkRun(run) && InFile(name, width)
    ensures LastWriteTo(run, j, name, width) ==>
              Read(Writes(file, run), name, width) == Truncate(run[j].value, width)
    ensures NeverWritten(run, name, width) ==> Read(Writes(file, run), name, width) == Read(file, name, width)
    decreases |run|
  {
    hide Read, Write, Truncate, ShareNoByte, LastWriteTo, NeverWritten;
    if run != [] {
      var last, before := run[|run| - 1], run[..|run| - 1];
      assert last.Ok();
      LastWriteOfLonger(run, j, name, width);
      NeverInLonger(run, name, width);
      ReadAfterWrites(file, before, j, name, width);
      if ShareNoByte(last.name, last.width, name, width) {
        ReadElsewhere(Writes(file, before), last.name, last.value, last.width, name, width);
      }
      if last.name == name && last.width == width {
        ReadAfterWrite(Writes(file, before), name, last.value, width);
      }
    } else {
      NothingWritten(j, name, width);
    }
  }

  lemma LastWriteOfLonger(run: seq<Access>, j: int, name: FERegisterName, width: FEBitWidth)
    requires run != []
    ensures var last, before := run[|run| - 1], run[..|run| - 1];
            LastWriteTo(run, j, name, width) ==>
              if j == |run| - 1 then last.name == name && last.width == width
              else 0 <= j < |run| - 1 && LastWriteTo(before, j, name, width)
                   && ShareNoByte(last.name, last.width, name, width)
  {
    hide ShareNoByte;
  }

  lemma NeverInLonger(run: seq<Access>, name: FERegisterName, width: FEBitWidth)
    requires run != []
    ensures var last, before := run[|run| - 1], run[..|run| - 1];
            NeverWritten(run, name, width) ==>
              NeverWritten(before, name, width) && ShareNoByte(last.name, last.width, name, width)
  {
    hide ShareNoByte;
  }

  lemma NothingWritten(j: int, name: FERegisterName, width: FEBitWidth)
    ensures !LastWriteTo([], j, name, width)
  {}

  // ----- The parts of a register with byte views

  /** The 16-bit and byte views of a 32-bit register, lowest view first. */
  datatype Views = Views(whole: FERegisterName, half: FERegisterName, low: FERegisterName, high: FERegisterName)

  predicate Nested(v: Views) {
    || v == Views(EAX, AX, AL, AH)
    || v == Views(EBX, BX, BL, BH)
    || v == Views(ECX, CX, CL, CH)
    || v == Views(EDX, DX, DL, DH)
  }

  lemma NestedOffsets(v: Views)
    requires Nested(v)
    ensures Offset(v.half) == Offset(v.low) == Offset(v.whole) && Offset(v.high) == Offset(v.whole) + 1
    ensures Offset(v.whole) + 4 <= SIZE
  {}

  /** The parts are the low half of the register and its two bytes. */
  lemma ReadParts(file: File, v: Views)
    requires Nested(v)
    ensures var e := Read(file, v.whole, k32bit);
            && Read(file, v.half, k16bit) == e % 0x1_0000
            && Read(file, v.low, k8bit) == e % 0x100
            && Read(file, v.high, k8bit) == e / 0x100 % 0x100
  {
    NestedOffsets(v);
    hide Offset, LeValue, Join;
    var k := Offset(v.whole);
    var b := file[k..k + 4];
    Parts(b);
    assert file[k..k + 1] == b[..1] && file[k + 1..k + 2] == b[1..2] && file[k..k + 2] == b[..2];
  }

  /** A write to a part changes that part of the register and no other bit of it. */
  lemma WriteLow(file: File, v: Views, x: u32)
    requires Nested(v)
    ensures var e := Read(file, v.whole, k32bit);
            Read(Write(file, v.low, x, k8bit), v.whole, k32bit) == e - e % 0x100 + x % 0x100
  {
    NestedOffsets(v);
    BytesOfValue(x);
    hide Offset, LeBytes, LeValue, Join, Overlay;
    var k := Offset(v.whole);
    var b, r := file[k..k + 4], Write(file, v.low, x, k8bit);
    var b' := [x % 0x100, b[1], b[2], b[3]];
    assert r[k] == b'[0] && r[k + 1] == b'[1] && r[k + 2] == b'[2] && r[k + 3] == b'[3];
    assert r[k..k + 4] == b';
    LeValueOfFour(b);
    LeValueOfFour(b');
    JoinChanged(b[0], b[1], b[2], b[3], b'[0], b'[1]);
  }

  lemma WriteHigh(file: File, v: Views, x: u32)
    requires Nested(v)
    ensures var e := Read(file, v.whole, k32bit);
            Read(Write(file, v.high, x, k8bit), v.whole, k32bit)
            == e - e % 0x1_0000 + e % 0x100 + 0x100 * (x % 0x100)
  {
    NestedOffsets(v);
    BytesOfValue(x);
    hide Offset, LeBytes, LeValue, Join, Overlay;
    var k := Offset(v.whole);
    var b, r := file[k..k + 4], Write(file, v.high, x, k8bit);
    var b' := [b[0], x % 0x100, b[2], b[3]];
    assert r[k] == b'[0] && r[k + 1] == b'[1] && r[k + 2] == b'[2] && r[k + 3] == b'[3];
    assert r[k..k + 4] == b';
    LeValueOfFour(b);
    LeValueOfFour(b');
    JoinChanged(b[0], b[1], b[2], b[3], b'[0], b'[1]);
  }

  lemma WriteHalf(file: File, v: Views, x: u32)
    requires Nested(v)
    ensures var e := Read(file, v.whole, k32bit);
            Read(Write(file, v.half, x, k16bit), v.whole, k32bit) == e - e % 0x1_0000 + x % 0x1_0000
  {
    NestedOffsets(v);
    BytesOfValue(x);
    TwoBytes(x);
    hide Offset, LeBytes, LeValue, Join, Overlay;
    var k := Offset(v.whole);
    var b, r := file[k..k + 4], Write(file, v.half, x, k16bit);
    var b' := [x % 0x100, x / 0x100 % 0x100, b[2], b[3]];
    assert r[k] == b'[0] && r[k + 1] == b'[1] && r[k + 2] == b'[2] && r[k + 3] == b'[3];
    assert r[k..k + 4] == b';
    LeValueOfFour(b);
    LeValueOfFour(b');
    JoinChanged(b[0], b[1], b[2], b[3], b'[0], b'[1]);
  }

  lemma JoinChanged(b0: byte, b1: byte, b2: byte, b3: byte, x0: byte, x1: byte)
    ensures var e := Join(b0, b1, b2, b3);
            && Join(x0, b1, b2, b3) == e - e % 0x100 + x0
            && Join(b0, x1, b2, b3) == e - e % 0x1_0000 + e % 0x100 + 0x100 * x1
            && Join(x0, x1, b2, b3) == e - e % 0x1_0000 + (x0 + 0x100 * x1)
  {
    JoinParts(b0, b1, b2, b3);
    JoinDiffers(b0, b1, b2, b3, x0, x1);
    JoinDiffers(b0, b1, b2, b3, x1, x0);
    hide Join;
  }

  lemma JoinDiffers(b0: int, b1: int, b2: int, b3: int, x0: int, x1: int)
    ensures Join(x0, b1, b2, b3) == Join(b0, b1, b2, b3) - b0 + x0
    ensures Join(b0, x0, b2, b3) == Join(b0, b1, b2, b3) - 0x100 * b1 + 0x100 * x0
    ensures Join(x0, x1, b2, b3) == Join(b0, b1, b2, b3) - (b0 + 0x100 * b1) + (x0 + 0x100 * x1)
  {}

  lemma TwoBytes(x: u32)
    ensures x % 0x1_0000 == x % 0x100 + 0x100 * (x / 0x100 % 0x100)
  {}

  lemma Parts(b: seq<byte>)
    requires |b| == 4
    ensures LeValue(b) == Join(b[0], b[1], b[2], b[3])
    ensures LeValue(b[..1]) == b[0] == LeValue(b) % 0x100
    ensures LeValue(b[1..2]) == b[1] == LeValue(b) / 0x100 % 0x100
    ensures LeValue(b[..2]) == b[0] + 0x100 * b[1] as int == LeValue(b) % 0x1_0000
  {
    LeValueOfFour(b);
    assert b[..2][1..] == b[1..2] && b[..1][1..] == [] && b[1..2][1..] == [];
    assert LeValue(b[1..2]) == b[1] && LeValue(b[..2]) == b[0] + 0x100 * LeValue(b[1..2]);
    JoinParts(b[0], b[1], b[2], b[3]);
  }

  lemma JoinParts(b0: byte, b1: byte, b2: byte, b3: byte)
    ensures var e := Join(b0, b1, b2, b3);
            e % 0x100 == b0 && e / 0x100 % 0x100 == b1 && e % 0x1_0000 == b0 + 0x100 * b1 as int
  {
    var e := Join(b0, b1, b2, b3);
    assert e == b0 + 0x100 * (b1 + 0x100 * (b2 + 0x100 * b3 as int));
    assert e / 0x100 == b1 + 0x100 * (b2 + 0x100 * b3 as int);
  }

  lemma BytesOfValue(v: nat)
    ensures LeBytes(v, 1) == [v % 0x100] && LeBytes(v, 2) == [v % 0x100, v / 0x100 % 0x100]
  {
    assert LeBytes(v / 0x100, 1) == [v / 0x100 % 0x100] + LeBytes(v / 0x100 / 0x100, 0);
  }
}
