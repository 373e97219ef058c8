/**
 * The dedup ledger and the optimize decision (ContentManagement/ImageCompressor.cs).
 *
 * Decoding the payload is not modelled: the caller says what
 * `Image.FromStream` would find (a GIF, another format, or data it cannot
 * read). The compression itself goes through `TinifyClient.Fit`.
 */
module Compressor {
  import opened Wrappers
  import opened Tinify

  /** What decoding the payload finds. `Unreadable` is the case where `Image.FromStream` throws. */
  datatype ImageFormat = Gif | OtherFormat | Unreadable

  datatype OptimizeError = DecodeFailure | FitFailed(cause: FitError)

  /** The branch OptimizeImageAsync takes before any network work. */
  datatype Decision = AlreadyHandled | Undecodable | GifExempt | SendToFit

  function Decide(handled: set<int>, itemId: int, force: bool, format: ImageFormat): (d: Decision)
    ensures d == AlreadyHandled <==> !force && itemId in handled
    ensures d == Undecodable <==> (force || itemId !in handled) && format == Unreadable
    ensures d == GifExempt <==> (force || itemId !in handled) && format == Gif
    ensures d == SendToFit <==> (force || itemId !in handled) && format == OtherFormat
  {
    if !force && itemId in handled then AlreadyHandled
    else match format
      case Unreadable => Undecodable
      case Gif => GifExempt
      case OtherFormat => SendToFit
  }

  /** With `force` set the ledger is not consulted at all: the decision is the same whatever it holds. */
  lemma ForceIgnoresLedger(handled: set<int>, other: set<int>, itemId: int, format: ImageFormat)
    ensures Decide(handled, itemId, true, format) == Decide(other, itemId, true, format)
    ensures Decide(handled, itemId, true, format) != AlreadyHandled
  {
  }

  class ImageCompressor {
    const previewMaxWidth: int
    const previewMaxHeight: int
    const imageMaxWidth: int
    const imageMaxHeight: int
    /** The shared compression client (`TinifyClient`'s static state). */
    const client: TinifyClient

    /** The ledger `_compressed`: ids of items already compressed or found exempt. */
    var compressed: set<int>

    constructor (client: TinifyClient, previewWidth: int, previewHeight: int, imageWidth: int, imageHeight: int)
      ensures this.client == client && compressed == {}
      ensures previewMaxWidth == previewWidth && previewMaxHeight == previewHeight
      ensures imageMaxWidth == imageWidth && imageMaxHeight == imageHeight
    {
      this.client := client;
      previewMaxWidth, previewMaxHeight := previewWidth, previewHeight;
      imageMaxWidth, imageMaxHeight := imageWidth, imageHeight;
      compressed := {};
    }

    /** The box a payload must fit: the preview box for a preview image, the image box otherwise. */
    function Box(isPreview: bool): (box: (int, int))
      ensures isPreview ==> box.0 == previewMaxWidth && box.1 == previewMaxHeight
      ensures !isPreview ==> box.0 == imageMaxWidth && box.1 == imageMaxHeight
    {
      if isPreview then (previewMaxWidth, previewMaxHeight) else (imageMaxWidth, imageMaxHeight)
    }

    /** The drain signal, shared with the compression client: set exactly when no compression is in flight. */
    function AllDone(): (done: bool)
      reads client
      ensures client.Valid() ==> (done <==> client.pendingTasks == 0)
    {
      client.allDone
    }

    method RegisterIds(existing: seq<int>)
      modifies this`compressed
      ensures compressed == old(compressed) + set x | x in existing
    {
      for k := 0 to |existing|
        invariant compressed == old(compressed) + set x | x in existing[..k]
      {
        assert existing[..k + 1] == existing[..k] + [existing[k]];
        compressed := compressed + {existing[k]};
      }
      assert existing[..|existing|] == existing;
    }

    method RemoveId(id: int)
      modifies this`compressed
      ensures compressed == old(compressed) - {id}
    {
      compressed := compressed - {id};
    }

    method RegisteredIds() returns (ids: set<int>)
      ensures ids == compressed
    {
      ids := compressed;
    }

    /**
     * OptimizeImageAsync. A handled item (unless forced) and a GIF come back
     * unchanged without reaching the client; anything else goes to `Fit` with
     * the box for its kind, and only a successful compression marks the item.
     */
    method OptimizeImageAsync(itemId: int, bytes: Bytes, isPreview: bool, force: bool,
                              format: ImageFormat, usage: UsageOracle, exchange: Exchange)
      returns (result: Result<(bool, Bytes), OptimizeError>)
      requires client.Valid() && !client.gateHeld
      modifies this`compressed, client
      ensures client.Valid() && !client.gateHeld
      ensures client.pendingTasks == old(client.pendingTasks)
      ensures compressed == old(compressed) || compressed == old(compressed) + {itemId}
      ensures result.Ok? ==> itemId in compressed
      ensures var decision := Decide(old(compressed), itemId, force, format);
        && (decision != SendToFit ==> unchanged(client))
        && (decision == AlreadyHandled ==> result == Ok((false, bytes)) && compressed == old(compressed))
        && (decision == Undecodable ==> result == Err(DecodeFailure) && compressed == old(compressed))
        && (decision == GifExempt ==> result == Ok((false, bytes)) && compressed == old(compressed) + {itemId})
      ensures var decision := Decide(old(compressed), itemId, force, format);
        var box := Box(isPreview);
        var r := Select(client.apiKeys, client.compressionsLimit, usage, old(client.State()));
        decision == SendToFit ==>
          && client.State() == r.state
          && (!r.served ==> result == Err(FitFailed(QuotaExhausted)) && compressed == old(compressed)
                            && client.sent == old(client.sent))
          && (r.served ==> client.sent == old(client.sent) + [Request(bytes, box.0, box.1)])
          && (r.served ==> match exchange(bytes, box.0, box.1)
                           case Some(b) => result == Ok((true, b)) && compressed == old(compressed) + {itemId}
                           case None => result == Err(FitFailed(TransportFailure)) && compressed == old(compressed))
    {
      if !force && itemId in compressed {
        return Ok((false, bytes));
      }
      var (width, height) := Box(isPreview);
      match format {
        case Unreadable =>
          return Err(DecodeFailure);
        case Gif =>
          compressed := compressed + {itemId};
          return Ok((false, bytes));
        case OtherFormat =>
      }
      var fitted := client.Fit(bytes, width, height, usage, exchange);
      match fitted {
        case Err(e) =>
          result := Err(FitFailed(e));
        case Ok(b) =>
          compressed := compressed + {itemId};
          result := Ok((true, b));
      }
    }
  }

  /**
   * A ledger holding 17: an unforced request for 17 comes back unchanged and
   * nothing is sent; a forced request for the same item reaches the service.
   */
  method LedgerScenario(bytes: Bytes, exchange: Exchange) returns (first: Result<(bool, Bytes), OptimizeError>, second: Result<(bool, Bytes), OptimizeError>)
    requires exchange(bytes, 800, 600).Some?
    ensures first == Ok((false, bytes))
    ensures second == Ok((true, exchange(bytes, 800, 600).value))
  {
    var client := new TinifyClient(["key"], 500);
    var compressor := new ImageCompressor(client, 400, 300, 800, 600);
    compressor.RegisterIds([17]);
    var usage: UsageOracle := i => Some(0);
    first := compressor.OptimizeImageAsync(17, bytes, false, false, OtherFormat, usage, exchange);
    assert first == Ok((false, bytes)) && client.sent == [];
    second := compressor.OptimizeImageAsync(17, bytes, false, true, OtherFormat, usage, exchange);
    assert client.sent == [Request(bytes, 800, 600)];
    assert client.pendingTasks == 0 && compressor.AllDone();
  }
}
