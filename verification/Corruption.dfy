/** Frames damaged on the line, with the default checksum: what becomes of them at the server and at the client. */
module Corruption {
  import opened Words
  import opened Frames
  import Engine
  import opened Responses
  import opened Requests
  import Serving
  import opened Polling
  import Crc

  /** nmbs_crc_calc, the checksum that is used when the platform brings none of its own. */
  const NMBS_CRC: CrcFunction := s => Crc.Checksum(s)

  /** Damage of the kinds that the checksum always finds: within two adjacent bytes, or an odd number of bits. */
  ghost predicate Damaged(f: seq<byte>, g: seq<byte>) {
    && |g| == |f| >= 2
    && (Crc.FlippedBits(f, g) % 2 == 1
        || (f != g && exists i :: 0 <= i < |f| - 1 && DiffersOnlyAt(f, g, i)))
  }

  ghost predicate DiffersOnlyAt(f: seq<byte>, g: seq<byte>, i: nat)
    requires |g| == |f|
  {
    forall j :: 0 <= j < |f| && j != i && j != i + 1 ==> f[j] == g[j]
  }

  /** On RTU the trailer fits exactly when the default checksum accepts the frame. */
  lemma TrailerFitsIffAccepted(g: seq<byte>)
    requires |g| >= 2
    ensures TrailerFits(RTU, NMBS_CRC, g, |g| - 2) <==> Crc.Accepted(g)
  {
    hide Crc.Checksum;
  }

  /** A frame that was sent and then damaged does not fit its trailer. */
  lemma DamageShows(h: Header, data: seq<byte>, g: seq<byte>)
    requires Damaged(Frame(RTU, NMBS_CRC, h, data), g)
    ensures !TrailerFits(RTU, NMBS_CRC, g, |g| - 2)
  {
    hide Crc.Checksum, Crc.FlippedBits, Crc.Accepted;
    var f := Frame(RTU, NMBS_CRC, h, data);
    Crc.SealedIsAccepted(HeaderBytes(RTU, h, |data|) + data);
    TrailerFitsIffAccepted(g);
    if Crc.FlippedBits(f, g) % 2 == 1 {
      Crc.DetectsOddNumberOfFlips(f, g);
    } else {
      var i :| 0 <= i < |f| - 1 && DiffersOnlyAt(f, g, i);
      Crc.DetectsErrorInTwoAdjacentBytes(f, g, i);
    }
  }

  /** The length that a message gives itself is its length on the line. */
  predicate WholeRequest(g: seq<byte>)
    requires |g| >= 2 && g[1] in FUNCTIONS && BodyArrived(RTU, g, RequestForm(g[1]))
  {
    !OverLimit(RTU, g, RequestForm(g[1])) && BodyEnd(RTU, g, RequestForm(g[1])) == |g| - 2
  }

  /** A damaged request that still looks like a whole request runs no callback and is not answered. */
  lemma DamagedRequestIsDropped<D>(address: byte, cbs: Serving.Callbacks<D>, dev: D, h: Header, data: seq<byte>,
                                   g: seq<byte>)
    requires Damaged(Frame(RTU, NMBS_CRC, h, data), g) && LineReady(RTU, NMBS_CRC, address, g)
    requires g[1] in FUNCTIONS && WholeRequest(g)
    ensures PollResult(RTU, NMBS_CRC, address, cbs, dev, g) == Polled(ERROR_CRC, dev, [], [])
  {
    hide RequestArrived, AnswerArrived, TrailerFits, Damaged, Frame, ServeRequest, ParseRequest, Overheard;
    DamageShows(h, data, g);
    assert g[|g|..] == [];
  }

  /**
   * A damaged request never runs a callback. At the server to which it seems to be addressed it goes unanswered exactly
   * if its function code is a known one: the answer to an unknown one does not wait for the checksum.
   */
  lemma DamagedRequestIsAnswered<D>(address: byte, cbs: Serving.Callbacks<D>, dev: D, h: Header, data: seq<byte>,
                                    g: seq<byte>)
    requires Damaged(Frame(RTU, NMBS_CRC, h, data), g) && LineReady(RTU, NMBS_CRC, address, g)
    requires g[0] == address != BROADCAST_ADDRESS && (g[1] in FUNCTIONS ==> WholeRequest(g))
    ensures var p := PollResult(RTU, NMBS_CRC, address, cbs, dev, g);
      p.dev == dev && (p.sent == [] <==> g[1] in FUNCTIONS)
  {
    hide RequestArrived, AnswerArrived, TrailerFits, DiffersOnlyAt, ServeRequest, ParseRequest, Handled, Crc.Checksum;
    if g[1] in FUNCTIONS {
      DamagedRequestIsDropped(address, cbs, dev, h, data, g);
    }
  }

  /** One bit makes function code 6 into the unknown 7: the request is damaged, and answered. */
  lemma OneBitIsAnswered<D>(address: byte, cbs: Serving.Callbacks<D>, dev: D, register: u16, value: u16)
    requires address != BROADCAST_ADDRESS
    ensures var f := Frame(RTU, NMBS_CRC, Header(0, address, 6), Be(register) + Be(value));
      var g := f[1 := 7];
      && Damaged(f, g) && LineReady(RTU, NMBS_CRC, address, g)
      && PollResult(RTU, NMBS_CRC, address, cbs, dev, g).sent
      == Emitted(RTU, NMBS_CRC, Header(0, address, 7), Exception(ILLEGAL_FUNCTION)) != []
  {
    hide Crc.Checksum, Crc.FlippedBits, Be, Handled, RequestArrived;
    var f: seq<byte> := Frame(RTU, NMBS_CRC, Header(0, address, 6), Be(register) + Be(value));
    assert f[1] == 6;
    assert DiffersOnlyAt(f, f[1 := 7], 0);
  }

  /** A damaged answer with its own length is never taken for a good one; its checksum shows if its header does not. */
  lemma DamagedAnswerIsRefused(req: Header, h: Header, data: seq<byte>, g: seq<byte>, f: Form)
    requires Damaged(Frame(RTU, NMBS_CRC, h, data), g) && ResArrived(RTU, NMBS_CRC, req, g, f)
    requires Engine.ResHeaderError(RTU, NMBS_CRC, req, g) == ERROR_NONE && !OverLimit(RTU, g, f) ==>
      BodyEnd(RTU, g, f) == |g| - 2
    ensures FormError(RTU, NMBS_CRC, req, g, f) != ERROR_NONE
    ensures Engine.ResHeaderError(RTU, NMBS_CRC, req, g) == ERROR_NONE && !OverLimit(RTU, g, f) ==>
      FormError(RTU, NMBS_CRC, req, g, f) == ERROR_CRC
    ensures |g| == 5 && g[0] == req.unitId && g[1] >= 0x80 && g[1] - 0x80 == req.fc ==>
      FormError(RTU, NMBS_CRC, req, g, f) == ERROR_CRC
  {
    hide TrailerFits, Damaged, Frame, Engine.ResHeaderArrived;
    DamageShows(h, data, g);
  }
}
