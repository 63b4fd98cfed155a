/** A name that its own bytes spell twice: short to read, too long to write. */
module LongNames {
  import opened Bytes
  import opened Cursor
  import opened Names
  import opened PacketBuffer
  import opened Question
  import opened Header
  import opened Record
  import opened Packet

  /** `n` labels of 63 bytes, read on from `p`. */
  ghost predicate LabelRun(b: seq<byte>, p: nat, n: nat) {
    p + 64 * n < |b| && forall i :: p <= i < p + 64 * n - 1 ==> b[i] == MAX_LABEL
  }

  lemma {:induction false} RunExpands(b: seq<byte>, p: nat, n: nat, jumps: nat)
    requires LabelRun(b, p, n) && jumps <= MAX_JUMPS && Expand(b, p + 64 * n, jumps).Some?
    ensures Expand(b, p, jumps).Some? && EndOfName(b, p) == EndOfName(b, p + 64 * n)
    ensures |LabelsWire(Expand(b, p, jumps).value)| == 64 * n + |LabelsWire(Expand(b, p + 64 * n, jumps).value)|
    decreases n
  {
    hide Expand, EndOfName, LabelsWire;
    if n > 0 {
      RunExpands(b, p + 64, n - 1, jumps);
      ExpandCons(b, p, jumps);
      LabelsWireCons(b[p + 1..p + 64], Expand(b, p + 64, jumps).value);
    }
  }

  /** The whole buffer: a header announcing one question, and its name, which points back into its own labels. */
  function Looped(): (b: seq<byte>)
    ensures |b| == BUF_SIZE
  {
    seq(BUF_SIZE, i requires 0 <= i < BUF_SIZE =>
      if i < 12 then (if i == 5 then 1 else 0)
      else if i == 12 then 50
      else if i == 4031 then 0xC1
      else if i == 4032 then 0
      else MAX_LABEL)
  }

  const LOOPED_SIZE := 51 + 64 * 62 + 64 * 59 + 1

  lemma LoopedName() returns (name: Text)
    ensures ReadName(Looped(), 12) == Some((name, 4033))
    ensures NameWire(name).Some? && |NameWire(name).value| == LOOPED_SIZE == 7796
  {
    hide Looped, Expand, EndOfName, LabelsWire, LowerLabels, NameWire, TextOf, NormalForm;
    var b := Looped();
    LoopedLabels();
    WriteRead(b, 12);
    LowerLabelsWire(Expand(b, 12, 0).value);
    name := ReadName(b, 12).value.0;
  }

  lemma LoopedLabels()
    ensures Expand(Looped(), 12, 0).Some? && EndOfName(Looped(), 12) == Some(4033)
    ensures |LabelsWire(Expand(Looped(), 12, 0).value)| + 1 == LOOPED_SIZE
  {
    hide Looped, Expand, EndOfName, LabelsWire, LabelRun;
    var b := Looped();
    LoopedBytes();
    LoopedRuns(b);
    LoopedTail(b);
    RunExpands(b, 256, 59, 1);
    LoopedPointer(b);
    RunExpands(b, 63, 62, 0);
    ExpandCons(b, 12, 0);
    LabelsWireCons(b[13..63], Expand(b, 63, 0).value);
  }

  lemma LoopedRuns(b: seq<byte>)
    requires |b| == BUF_SIZE && forall i :: 12 < i < 4031 ==> b[i] == MAX_LABEL
    ensures LabelRun(b, 63, 62) && LabelRun(b, 256, 59)
  {
  }

  lemma LoopedBytes()
    ensures var b := Looped();
            && b[12] == 50 && b[4031] == 0xC1 && b[4032] == 0
            && (forall i :: 12 < i < 4031 ==> b[i] == MAX_LABEL) && (forall i :: 4032 < i < BUF_SIZE ==> b[i] == MAX_LABEL)
            && (forall i :: 0 <= i < 12 ==> b[i] == if i == 5 then 1 else 0)
  {
  }

  lemma LoopedTail(b: seq<byte>)
    requires |b| == BUF_SIZE && b[4032] == 0
    ensures Expand(b, 4032, 1) == Some([]) && |LabelsWire([])| == 0
  {
  }

  lemma LoopedPointer(b: seq<byte>)
    requires |b| == BUF_SIZE && b[4031] == 0xC1 && b[4032] == 0
    ensures Expand(b, 4031, 0) == Expand(b, 256, 1) && EndOfName(b, 4031) == Some(4033)
  {
    hide LabelsWire;
  }

  const ONE_QUESTION := NEW_HEADER.(questions := 1)

  lemma LoopedHeader()
    ensures ParseHeader(Looped(), 0) == Some((ONE_QUESTION, 12))
  {
    var b := Looped();
    LoopedBytes();
    hide Looped;
    assert GetU16(b, 4) == Some((1, 6));
    assert GetU16(b, 2) == Some((0, 4));
  }

  function LoopedPacket(name: Text): DnsPacket {
    DnsPacket(ONE_QUESTION, [DnsQuestion(name, QueryType.UNKNOWN(0x3F3F))], [], [], [], None)
  }

  /** A packet that the reader accepts, encodable and without anything like OPT, but that no buffer can hold. */
  lemma ParsedPacketMayNotFit() returns (name: Text)
    ensures ParsePacket(Looped(), 0) == Some((LoopedPacket(name), 4037))
    ensures PacketWire(LoopedPacket(name)).Some? && |PacketWire(LoopedPacket(name)).value| == 16 + LOOPED_SIZE > BUF_SIZE
  {
    hide Looped, ReadName, ParseHeader, ParseQuestion, PacketWire, NameWire, NormalForm;
    name := LoopedName();
    LoopedHeader();
    LoopedQuestion(name);
    var q := LoopedPacket(name).questions[0];
    assert [] + [q] == [q];
    assert ParseQuestions(Looped(), 4037, 0, [q]) == Some(([q], 4037));
    OneQuestionWire(LoopedPacket(name));
  }

  lemma LoopedQuestion(name: Text)
    ensures ReadName(Looped(), 12) == Some((name, 4033)) ==>
              ParseQuestion(Looped(), 12) == Some((LoopedPacket(name).questions[0], 4037))
  {
    var b := Looped();
    LoopedBytes();
    hide Looped, ReadName, NormalForm;
    assert GetU16(b, 4033) == Some((0x3F3F, 4035)) && GetU16(b, 4035) == Some((0x3F3F, 4037));
  }
}
