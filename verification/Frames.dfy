/** Frames of the TES protocol: the fields of the headers, what kind of frame
    they make, and when a frame is valid. */
module Frames {
  import opened Bytes

  const HDR_LEN: nat := 24       // including the ethernet header
  const MCA_HDR_LEN: nat := 40
  const TICK_HDR_LEN: nat := 24
  const MCA_BIN_LEN: nat := 4
  const MTU: nat := 1496

  const ETHERTYPE_EVENT: u16 := 0x88B5
  const ETHERTYPE_MCA: u16 := 0x88B6

  const TYPE_PEAK := 0
  const TYPE_AREA := 1
  const TYPE_PULSE := 2
  const TYPE_TRACE := 3
  const TRACE_SGL := 0
  const TRACE_DP := 2

  type bits2 = x: int | 0 <= x < 4

  /** A receive buffer: the header fields in host order and the bytes after the
      24 header bytes. The buffer is always long enough for a full frame; how
      much of it is payload depends on the frame's length. */
  datatype RawFrame = Frame(
    etherType: u16,
    length: u16,
    fseq: u16,
    pseq: u16,
    esize: u16,
    tick: bool,      // etype.T
    pkt: bits2,      // etype.PKT
    tr: bits2,       // etype.TR
    body: seq<byte>)

  type Frame = f: RawFrame | |f.body| >= MTU - HDR_LEN
    witness Frame(0, 0, 0, 0, 0, false, 0, 0, seq(MTU - HDR_LEN, i => 0))

  // ---------- Kinds of frame ----------

  predicate IsHeader(f: Frame) { f.pseq == 0 }

  predicate IsMca(f: Frame) { f.etherType == ETHERTYPE_MCA }

  predicate IsEvent(f: Frame) { f.etherType == ETHERTYPE_EVENT }

  predicate IsTick(f: Frame) { IsEvent(f) && f.tick }

  predicate IsPeak(f: Frame) { IsEvent(f) && f.pkt == TYPE_PEAK && !f.tick }

  predicate IsArea(f: Frame) { IsEvent(f) && f.pkt == TYPE_AREA && !f.tick }

  predicate IsPulse(f: Frame) { IsEvent(f) && f.pkt == TYPE_PULSE && !f.tick }

  predicate IsTrace(f: Frame) { IsEvent(f) && f.pkt == TYPE_TRACE && !f.tick }

  predicate IsTraceDp(f: Frame) { IsTrace(f) && f.tr == TRACE_DP }

  predicate IsTraceLong(f: Frame) { IsTrace(f) && !IsTraceDp(f) }

  // ---------- Accessors ----------

  /** Bins in this frame, computed in C's int and stored in 16 bits: an MCA
      header shorter than its own header wraps around. */
  function McaNbins(f: Frame): (n: u16)
  {
    var bytes := f.length - HDR_LEN - (if IsHeader(f) then MCA_HDR_LEN else 0);
    CDiv(bytes, MCA_BIN_LEN) % U16
  }

  /** C's integer division, which truncates toward zero. */
  function CDiv(a: int, b: int): int
    requires b > 0
  {
    if a >= 0 then a / b else -((-a) / b)
  }

  /** Bins in the whole histogram; `last_bin + 1` in 16 bits. */
  function McaNbinsTot(f: Frame): (n: u16)
  {
    (Word(f.body, 2) + 1) % U16
  }

  function McaSize(f: Frame): nat
  {
    McaNbinsTot(f) * MCA_BIN_LEN + MCA_HDR_LEN
  }

  function McaMostFrequent(f: Frame): u16 { Word(f.body, 10) }

  function TraceSize(f: Frame): u16 { Word(f.body, 0) }

  /** Size of one event in bytes, `esize << 3` in 16 bits. */
  function TrueEsize(f: Frame): u16
  {
    (f.esize * 8) % U16
  }

  /** Number of events in an event frame. */
  function EventNums(f: Frame): nat
    requires TrueEsize(f) > 0
  {
    if IsTrace(f) then
      if IsHeader(f) || IsTraceDp(f) then 1 else 0
    else
      CDiv(f.length - HDR_LEN, TrueEsize(f)) % U16
  }

  // ---------- Validity ----------

  datatype Error =
    | EthType     // ether type
    | EthLen      // frame length
    | EvtType     // event type
    | EvtSize     // event size
    | TrSize      // trace size
    | McaSizeErr  // histogram size
    | McaBins     // most frequent bin against the last bin

  function Flag(c: bool, e: Error): set<Error>
  {
    if c then {e} else {}
  }

  /** The OR-ed error flags of a frame; none is set in a valid one. */
  function IsValid(f: Frame): set<Error>
  {
    Flag(f.length % 8 != 0 || f.length > MTU, EthLen) +
    Flag(f.length <= HDR_LEN, EthLen) +
    (if IsEvent(f) then EventErrors(f)
     else if IsMca(f) then McaErrors(f)
     else {EthType})
  }

  function EventErrors(f: Frame): set<Error>
  {
    (if f.esize == 0 then {EvtSize}
     else Flag((f.length - HDR_LEN) % (f.esize * 8) != 0, EthLen)) +
    (if IsTick(f) then
       Flag(f.esize != 3, EvtSize) + Flag(f.length != HDR_LEN + TICK_HDR_LEN, EthLen)
     else if IsPeak(f) || IsArea(f) then
       Flag(f.esize != 1, EvtSize)
     else if IsTrace(f) then
       (if IsHeader(f) then
          Flag(TraceSize(f) == 0, TrSize) + Flag(f.length - HDR_LEN > TraceSize(f), TrSize)
        else {}) +
       Flag(!IsTraceDp(f) && f.esize != 1, EvtSize)
     else
       Flag(!IsPulse(f), EvtType))
  }

  function McaErrors(f: Frame): set<Error>
  {
    if !IsHeader(f) then {}
    else
      Flag((f.length - HDR_LEN) % U32 > McaSize(f), McaSizeErr) +
      Flag(McaMostFrequent(f) >= McaNbinsTot(f), McaBins)
  }

  predicate Good(f: Frame) { IsValid(f) == {} }

  /** What every handler of good frames relies on. */
  lemma GoodFrame(f: Frame)
    requires Good(f)
    ensures HDR_LEN < f.length <= MTU && f.length % 8 == 0
    ensures IsMca(f) || IsEvent(f)
    ensures IsEvent(f) ==> 0 < f.esize * 8 <= MTU - HDR_LEN && TrueEsize(f) == f.esize * 8
    ensures IsEvent(f) ==> IsTick(f) || IsPeak(f) || IsArea(f) || IsPulse(f) || IsTrace(f)
  {
    NoFlag(f, EthLen);
    NoFlag(f, EthType);
    NoFlag(f, EvtSize);
    if IsEvent(f) {
      assert f.esize != 0;
      assert (f.length - HDR_LEN) % (f.esize * 8) == 0;
      DividesUpTo(f.length - HDR_LEN, f.esize * 8);
    }
  }

  /** A frame has no error flag if and only if its length is legal and it is an MCA
      frame or an event frame whose sizes agree with its kind; a stream's header is
      not longer than the stream. */
  lemma GoodIff(f: Frame)
    ensures Good(f) <==>
              && HDR_LEN < f.length <= MTU && f.length % 8 == 0
              && (if IsMca(f) then
                    IsHeader(f) ==> f.length - HDR_LEN <= McaSize(f) && McaMostFrequent(f) < McaNbinsTot(f)
                  else
                    && IsEvent(f) && f.esize > 0 && (f.length - HDR_LEN) % (f.esize * 8) == 0
                    && (f.tick ==> f.esize == 3 && f.length == HDR_LEN + TICK_HDR_LEN)
                    && (!f.tick && f.pkt != TYPE_PULSE && !IsTraceDp(f) ==> f.esize == 1)
                    && (IsTrace(f) && IsHeader(f) ==> f.length - HDR_LEN <= TraceSize(f)))
  {
    hide IsValid, EventErrors, McaErrors, McaSize, McaNbinsTot, McaMostFrequent, TraceSize;
    NoErrors(f);
    if HDR_LEN < f.length {
      if IsMca(f) {
        McaGood(f);
      } else if IsEvent(f) {
        EventGood(f);
      }
    }
  }

  lemma NoErrors(f: Frame)
    ensures Good(f) <==>
              && HDR_LEN < f.length <= MTU && f.length % 8 == 0
              && (if IsEvent(f) then EventErrors(f) == {} else IsMca(f) && McaErrors(f) == {})
  {
    hide EventErrors, McaErrors;
    forall e: Error | Good(f)
      ensures e !in IsValid(f)
    {
      NoFlag(f, e);
    }
  }

  lemma EventGood(f: Frame)
    requires IsEvent(f) && HDR_LEN < f.length
    ensures EventErrors(f) == {} <==>
              && f.esize > 0 && (f.length - HDR_LEN) % (f.esize * 8) == 0
              && (f.tick ==> f.esize == 3 && f.length == HDR_LEN + TICK_HDR_LEN)
              && (!f.tick && f.pkt != TYPE_PULSE && !IsTraceDp(f) ==> f.esize == 1)
              && (IsTrace(f) && IsHeader(f) ==> f.length - HDR_LEN <= TraceSize(f))
  {
    hide TraceSize;
    if EventErrors(f) == {} {
      assert EvtSize !in EventErrors(f) && EthLen !in EventErrors(f) && TrSize !in EventErrors(f);
    }
  }

  lemma McaGood(f: Frame)
    requires HDR_LEN < f.length
    ensures McaErrors(f) == {} <==>
              (IsHeader(f) ==> f.length - HDR_LEN <= McaSize(f) && McaMostFrequent(f) < McaNbinsTot(f))
  {
    hide McaSize, McaMostFrequent, McaNbinsTot;
    if McaErrors(f) == {} {
      assert McaSizeErr !in McaErrors(f) && McaBins !in McaErrors(f);
    }
  }

  /** The same from the header fields, and from the bytes of a stream's own header. */
  lemma GoodInNumbers(f: Frame)
    ensures var b := f.body;
            Good(f) <==>
              && 24 < f.length <= 1496 && f.length % 8 == 0
              && (f.etherType == 0x88B6 || f.etherType == 0x88B5)
              && (f.etherType == 0x88B6 && f.pseq == 0 ==>
                    var bins := (b[2] as int + 256 * (b[3] as int) + 1) % 65536;
                    f.length - 24 <= 40 + 4 * bins && b[10] as int + 256 * (b[11] as int) < bins)
              && (f.etherType == 0x88B5 ==>
                    && f.esize > 0 && (f.length - 24) % (8 * f.esize) == 0
                    && (f.tick ==> f.esize == 3 && f.length == 48)
                    && (!f.tick && (f.pkt <= 1 || (f.pkt == 3 && f.tr != 2)) ==> f.esize == 1)
                    && (!f.tick && f.pkt == 3 && f.pseq == 0 ==>
                          f.length - 24 <= b[0] as int + 256 * (b[1] as int)))
  {
    GoodIff(f);
    hide IsValid;
  }

  lemma NoFlag(f: Frame, e: Error)
    requires Good(f)
    ensures e !in IsValid(f)
  {
  }

  lemma DividesUpTo(a: nat, b: nat)
    requires a > 0 && b > 0 && a % b == 0
    ensures b <= a
  {
    assert a == b * (a / b);
  }

  /** A valid header declares a non-empty stream that is at least as long as the
      header frame's own payload. */
  lemma GoodStreamHeader(f: Frame)
    requires Good(f) && IsHeader(f)
    ensures IsTrace(f) ==> 0 < f.length - HDR_LEN <= TraceSize(f)
    ensures IsMca(f) ==> 0 < f.length - HDR_LEN <= McaSize(f) && McaNbinsTot(f) > 0
  {
  }
}
