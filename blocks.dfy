/** A block of the capture (Block.cs): its declared length and the responses built,
    in order, from the raw entries of a `RawBlock`. */
module Blocks {
  import opened Wrappers
  import opened Responses

  /** The raw responses of one block, in file order. How they are cut out of the
      block's bytes is not part of this model. */
  datatype RawBlock<Entry> = RawBlock(responses: seq<Entry>)

  /** A block's readonly fields, exposed by the `Length` and `Responses` getters. */
  datatype Block = Block(length: int, responses: seq<Response>) {

    /** The `ResponseCount` getter. */
    function ResponseCount(): nat {
      |responses|
    }
  }

  /** `entries.Select(x => new Response(x)).ToArray()`: each entry converted in order;
      the first conversion that throws ends the whole conversion with its exception. */
  function ConvertAll<Entry>(entries: seq<Entry>, convert: Entry -> Result<Response, ResponseError>)
    : (r: Result<seq<Response>, ResponseError>)
    ensures r.Ok? ==> |r.value| == |entries|
    ensures r.Ok? ==> forall i :: 0 <= i < |entries| ==> convert(entries[i]) == Ok(r.value[i])
    ensures r.Err? ==> exists k :: 0 <= k < |entries| && convert(entries[k]) == Err(r.error)
                                   && forall i :: 0 <= i < k ==> convert(entries[i]).Ok?
  {
    if entries == [] then Ok([])
    else
      var first :- convert(entries[0]);
      var rest :- ConvertAll(entries[1..], convert);
      assert forall i :: 1 <= i < |entries| ==> entries[i] == entries[1..][i - 1];
      Ok([first] + rest)
  }

  /** The constructor `Block(int length, RawBlock raw)`, with `new Response(x)` for an
      entry `x` given as `convert`. */
  function NewBlock<Entry>(length: int, raw: RawBlock<Entry>, convert: Entry -> Result<Response, ResponseError>)
    : (r: Result<Block, ResponseError>)
    ensures r.Ok? <==> forall i :: 0 <= i < |raw.responses| ==> convert(raw.responses[i]).Ok?
    ensures r.Ok? ==> r.value.length == length && r.value.ResponseCount() == |raw.responses|
    ensures r.Ok? ==> forall i :: 0 <= i < |raw.responses| ==> convert(raw.responses[i]) == Ok(r.value.responses[i])
  {
    var responses :- ConvertAll(raw.responses, convert);
    Ok(Block(length, responses))
  }
}
