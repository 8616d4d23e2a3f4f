/**
 * src/utils/printCommands.ts: the trailer sent after a print job, which
 * feeds the paper four lines and then cuts it.
 */
module PrintCommands {
  import opened Wrappers
  import opened Bytes
  import opened EscPos

  /** The trailer as commands: four line feeds, then GS V function B, m = 66 (partial cut), n = 0. */
  function CutTrailer(): (cs: seq<Command>)
    ensures |cs| == 5 && forall i | 0 <= i < |cs| :: WellFormed(cs[i])
  {
    [LineFeed, LineFeed, LineFeed, LineFeed, FeedAndCut(PartialCutFeed, 0)]
  }

  /**
   * `getCutCommand`: eight bytes, four LFs followed by 1D 56 42 00. Each call
   * returns an equal buffer.
   */
  function GetCutCommand(): (r: seq<Byte>)
    ensures |r| == 8
    ensures r[..4] == [LF, LF, LF, LF]
    ensures r[4..] == [GS, CutCode, PartialCutFeed, 0]
  {
    [0x0A, 0x0A, 0x0A, 0x0A, 0x1D, 0x56, 0x42, 0x00]
  }

  /** The trailer's bytes are the encoding of its commands, and a printer reads them back as exactly those. */
  lemma CutCommandIsTrailer()
    ensures GetCutCommand() == EncodeAll(CutTrailer())
    ensures Parse(GetCutCommand()) == Some(CutTrailer())
  {
    var cs := CutTrailer();
    assert EncodeAll(cs[4..]) == [GS, CutCode, PartialCutFeed, 0] by {
      assert cs[4..][1..] == [];
    }
    assert EncodeAll(cs[3..]) == [LF] + EncodeAll(cs[4..]) by { assert cs[3..][1..] == cs[4..]; }
    assert EncodeAll(cs[2..]) == [LF] + EncodeAll(cs[3..]) by { assert cs[2..][1..] == cs[3..]; }
    assert EncodeAll(cs[1..]) == [LF] + EncodeAll(cs[2..]) by { assert cs[1..][1..] == cs[2..]; }
    ParseEncodeAll(cs);
  }
}
