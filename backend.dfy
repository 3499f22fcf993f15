/**
 * The `/process` handler of backend/main.py:59-99: a cache-aside lookup in the
 * "text" collection keyed by the job hash; on a miss the text is classified,
 * the record is written and the selected categories are returned.
 */
module Backend {
  import opened Wrappers
  import opened Utf8
  import opened JobKey
  import opened Categories
  import opened Models

  /** The stored document: `{hash, bias, extent}`, where bias and extent are the selected categories. */
  datatype Record = Record(hash: string, bias: Category, extent: Category)

  /** The dictionary the handler returns. */
  datatype Reply = Reply(success: bool, bias: Category, extent: Category)

  class JobService {
    /** The document store, by document id. */
    var store: map<string, Record>
    /** The texts sent to the classifier, in call order. */
    ghost var classified: seq<string>
    /** SHA-256 over bytes. */
    const sha256: seq<byte> -> Digest
    /** The classifier: the categories it returns for a text. */
    const classify: string -> seq<Category>

    /** Every stored record sits under its own hash and holds a bias category and an extent category. */
    ghost predicate Valid()
      reads this
    {
      forall key :: key in store ==>
        && store[key].hash == key
        && IsBiasName(store[key].bias.name)
        && !IsBiasName(store[key].extent.name)
    }

    constructor (sha256: seq<byte> -> Digest, classify: string -> seq<Category>)
      ensures Valid()
      ensures store == map[] && classified == []
      ensures this.sha256 == sha256 && this.classify == classify
    {
      this.sha256 := sha256;
      this.classify := classify;
      store := map[];
      classified := [];
    }

    /** `process(req)`; a failure is the IndexError `extract_from_categories` raises. */
    method Process(req: Request) returns (r: Result<Reply, ExtractError>)
      requires Valid()
      modifies this
      ensures Valid()
      ensures r.Success? ==> IsBiasName(r.value.bias.name) && !IsBiasName(r.value.extent.name)
      ensures var key := ComputeJobHash(sha256, req.id, req.text);
        if key in old(store) then
          && r == Success(Reply(true, old(store)[key].bias, old(store)[key].extent))
          && store == old(store)
          && classified == old(classified)
        else
          && classified == old(classified) + [req.text]
          && match Extract(classify(req.text))
             case Failure(e) => r == Failure(e) && store == old(store)
             case Success((b, x)) =>
               && r == Success(Reply(true, b, x))
               && store == old(store)[key := Record(key, b, x)]
    {
      var jobHash := ComputeJobHash(sha256, req.id, req.text);
      if jobHash in store {
        var job := store[jobHash];
        return Success(Reply(true, job.bias, job.extent));
      }
      var categories := classify(req.text);
      classified := classified + [req.text];
      var extracted := ExtractFromCategories(categories);
      if extracted.Failure? {
        return Failure(extracted.error);
      }
      var (bias, extent) := extracted.value;
      store := store[jobHash := Record(jobHash, bias, extent)];
      r := Success(Reply(true, bias, extent));
    }

    /**
     * Two identical requests in a row: once the first has succeeded the second is served
     * from the store with the same answer and the classifier runs at most once; a request
     * whose classification failed left nothing behind, so it is classified again.
     */
    method ProcessTwice(req: Request) returns (first: Result<Reply, ExtractError>, second: Result<Reply, ExtractError>)
      requires Valid()
      modifies this
      ensures Valid()
      ensures first.Success? ==> second == first
      ensures first.Success? ==> |classified| <= |old(classified)| + 1
      ensures first.Failure? ==> second == first && classified == old(classified) + [req.text, req.text]
      ensures ComputeJobHash(sha256, req.id, req.text) in old(store) ==> classified == old(classified)
    {
      first := Process(req);
      second := Process(req);
    }
  }

  /** The category names the handler can return as a bias are exactly the Bias values. */
  lemma BiasNamesAreBiasValues(name: string)
    ensures IsBiasName(name) <==> ParseBias(name).Some?
  {
  }
}
