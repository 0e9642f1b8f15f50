/** Blocks kept as the records of a log stream. */
module BlockStream {
  import opened Bytes
  import opened StreamMessages
  import opened StreamFormat
  import opened StreamRoundTrip
  import BlockImage

  datatype Stored = Stored(header: BlockImage.Header, data: slice)

  /** Each record is the encoding of the block at its place. */
  ghost predicate Holds(records: seq<StreamRecord>, blocks: seq<Stored>) {
    && |records| == |blocks|
    && forall i :: 0 <= i < |blocks| ==>
      BlockImage.EncodeImage(blocks[i].header, blocks[i].data) == Ok(records[i].payload)
  }

  /** The block that `read` finds in record `i`. */
  ghost function BlockIn(read: Result<BlobContents, Error>, i: nat): Option<BlockImage.Image> {
    if read.Ok? && i < |read.value.records| then
      match BlockImage.DecodeImage(read.value.records[i].payload)
      case Ok(image) => Some(image)
      case Err(_) => None
    else None
  }

  /**
   Blocks encoded, appended to one blob, read back and decoded come out in order, each with its data and
   its header as the encoder stamps it, and each under its own stream offset.
   */
  lemma BlocksSurvive(h: BlobHeader, log: Log, records: seq<StreamRecord>, blocks: seq<Stored>, i: nat)
    requires HeaderFits(h) && Layout(h, log, records) && Holds(records, blocks) && i < |blocks|
    requires (h.prevBlockCrc == 0 || log.sealed == []) && Short(records)
    ensures var read := ReadBlob(BlobBytes(h, log));
      && BlockIn(read, i) == Some(BlockImage.Image(
        blocks[i].header.(rawDataSize := |blocks[i].data|, dataSize := |blocks[i].data|, compress := 0), blocks[i].data))
      && |read.value.records| == |blocks|
      && read.value.records[i].id == records[i].id
      && forall j :: i < j < |blocks| ==> read.value.records[i].id < read.value.records[j].id
  {
    hide BlobBytes;
    hide ReadBlob;
    hide BlockImage.DecodeImage;
    hide BlockImage.EncodeImage;
    ReadsBack(h, log, records);
    BlockImage.ImageRoundTrip(blocks[i].header, blocks[i].data);
    forall j | i < j < |blocks|
      ensures records[i].id < records[j].id
    {
      IdsGrow(log, records, i, j);
    }
  }
}
