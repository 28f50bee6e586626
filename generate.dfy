/**
  The index merge in `main` of generate.py. The loaded index maps page file
  names to records; the run walks the listing of the pages directory and, for
  every name that is not (yet) a key, reports it, reads a title and a tags line
  from the operator, and inserts a new record stamped with the current time.
  Because the membership test looks at the index as it is being extended, a
  name that occurs twice in the listing is prompted for only once.
 */
module Generate {
  import opened TagSplit

  /** One entry of index.json: the page's title, its tags and its creation time in whole seconds. */
  datatype Record = Record(name: string, tags: seq<string>, date: int)

  type Index = map<string, Record>

  /**
    What the run reads for one missing page: the answer to the title prompt,
    the answer to the tags prompt, and the clock, already truncated to whole
    seconds.
   */
  datatype Reply = Reply(title: string, tagsLine: string, now: int)

  /**
    A finished merge: the index to write back, and the missing pages in the
    order they were reported; the i-th of them took the i-th reply.
   */
  datatype Merged = Merged(index: Index, added: seq<string>)

  /** Standard input ended while the run was prompting for the metadata of `file`. */
  datatype SyncError = InputExhausted(file: string)

  datatype Result<T> = Ok(value: T) | Err(error: SyncError)

  /** The record inserted for a page whose prompts were answered with `reply`. */
  function NewRecord(reply: Reply): (rec: Record)
  {
    Record(reply.title, SplitWs(reply.tagsLine), reply.now)
  }

  function Names(listing: seq<string>): (names: set<string>)
  {
    set f | f in listing
  }

  /** One pass of the loop body for `file`. */
  function Step(m: Merged, file: string, replies: seq<Reply>): (r: Result<Merged>)
  {
    if file in m.index then Ok(m)
    else if |m.added| >= |replies| then Err(InputExhausted(file))
    else Ok(Merged(m.index[file := NewRecord(replies[|m.added|])], m.added + [file]))
  }

  /** The loop over the whole listing, one Step per name, stopping at the first error. */
  function Merge(index: Index, listing: seq<string>, replies: seq<Reply>): (r: Result<Merged>)
    decreases |listing|
  {
    if listing == [] then Ok(Merged(index, []))
    else
      match Merge(index, listing[..|listing| - 1], replies)
      case Err(e) => Err(e)
      case Ok(m) => Step(m, listing[|listing| - 1], replies)
  }

  /** The names of `listing` that are not in `known`, each once, in order of first occurrence. */
  function FreshNames(known: set<string>, listing: seq<string>): (names: seq<string>)
    ensures forall i, j :: 0 <= i < j < |names| ==> names[i] != names[j]
    ensures forall f :: f in names <==> f in listing && f !in known
    decreases |listing|
  {
    if listing == [] then []
    else if listing[0] in known then FreshNames(known, listing[1..])
    else [listing[0]] + FreshNames(known + {listing[0]}, listing[1..])
  }

  /**
    The loop of `main`: walks the listing, skips names already in the
    index, and inserts a new record for each other name, consuming one reply
    per insertion; it fails as soon as a prompt finds no reply.
   */
  method UpdateIndex(index: Index, listing: seq<string>, replies: seq<Reply>) returns (r: Result<Merged>)
    ensures r == Merge(index, listing, replies)
  {
    var current := index;
    var added: seq<string> := [];
    var i := 0;
    while i < |listing|
      invariant i <= |listing|
      invariant Merge(index, listing[..i], replies) == Ok(Merged(current, added))
    {
      var file := listing[i];
      assert listing[..i + 1][..i] == listing[..i];
      i := i + 1;
      if file in current {
        continue;
      }
      if |added| >= |replies| {
        MergeErrorPersists(index, listing, i, replies);
        return Err(InputExhausted(file));
      }
      current := current[file := NewRecord(replies[|added|])];
      added := added + [file];
    }
    assert listing[..i] == listing;
    return Ok(Merged(current, added));
  }

  /** Once a prefix of the listing fails, the whole run fails with the same error. */
  lemma {:induction false} MergeErrorPersists(index: Index, listing: seq<string>, j: nat, replies: seq<Reply>)
    requires j <= |listing|
    requires Merge(index, listing[..j], replies).Err?
    ensures Merge(index, listing, replies) == Merge(index, listing[..j], replies)
    decreases |listing|
  {
    if j < |listing| {
      var prefix := listing[..|listing| - 1];
      assert prefix[..j] == listing[..j];
      MergeErrorPersists(index, prefix, j, replies);
    } else {
      assert listing[..j] == listing;
    }
  }

  /** Names seen once more extend FreshNames by at most that name, at the end. */
  lemma {:induction false} FreshNamesSnoc(known: set<string>, listing: seq<string>, f: string)
    ensures FreshNames(known, listing + [f])
         == FreshNames(known, listing) + (if f in known || f in listing then [] else [f])
    decreases |listing|
  {
    if listing == [] {
      assert [] + [f] == [f];
    } else {
      assert (listing + [f])[1..] == listing[1..] + [f];
      if listing[0] in known {
        FreshNamesSnoc(known, listing[1..], f);
      } else {
        FreshNamesSnoc(known + {listing[0]}, listing[1..], f);
      }
    }
  }

  /**
    The run succeeds exactly when there is a reply for every distinct missing
    name; it then reports those names in listing order, and the key set is
    the old keys plus the listing. Otherwise it stops at the first missing
    name that has no reply.
   */
  lemma {:induction false} MergeOutcome(index: Index, listing: seq<string>, replies: seq<Reply>)
    ensures var missing := FreshNames(index.Keys, listing);
      match Merge(index, listing, replies)
      case Ok(m) =>
        && |missing| <= |replies|
        && m.added == missing
        && m.index.Keys == index.Keys + Names(listing)
      case Err(e) =>
        && |missing| > |replies|
        && e == InputExhausted(missing[|replies|])
    decreases |listing|
  {
    if listing != [] {
      var prefix, f := listing[..|listing| - 1], listing[|listing| - 1];
      assert listing == prefix + [f];
      assert prefix == listing[..|listing| - 1];
      MergeOutcome(index, prefix, replies);
      FreshNamesSnoc(index.Keys, prefix, f);
      assert Names(listing) == Names(prefix) + {f};
      match Merge(index, prefix, replies)
      case Err(e) =>
        assert Merge(index, listing, replies) == Err(e);
      case Ok(m) =>
        assert Merge(index, listing, replies) == Step(m, f, replies);
        assert f in m.index <==> f in index.Keys || f in prefix;
    }
  }

  /** Every record of the loaded index is kept exactly as it was. */
  lemma {:induction false} MergeKeepsExisting(index: Index, listing: seq<string>, replies: seq<Reply>)
    ensures Merge(index, listing, replies).Ok? ==>
      var out := Merge(index, listing, replies).value.index;
      forall k :: k in index ==> k in out && out[k] == index[k]
    decreases |listing|
  {
    if listing != [] {
      MergeKeepsExisting(index, listing[..|listing| - 1], replies);
    }
  }

  /**
    The i-th reported page gets the record built from the i-th reply: its
    title, its tags line split at whitespace runs, and its time stamp.
   */
  lemma {:induction false} MergeNewRecords(index: Index, listing: seq<string>, replies: seq<Reply>)
    ensures Merge(index, listing, replies).Ok? ==>
      var m := Merge(index, listing, replies).value;
      && |m.added| <= |replies|
      && forall i :: 0 <= i < |m.added| ==>
           && m.added[i] in m.index
           && m.index[m.added[i]] == Record(replies[i].title, SplitWs(replies[i].tagsLine), replies[i].now)
    decreases |listing|
  {
    if listing != [] {
      MergeNewRecords(index, listing[..|listing| - 1], replies);
    }
  }

  /** A listing whose names are all keys already changes nothing and reads no input. */
  lemma {:induction false} MergeCovered(index: Index, listing: seq<string>, replies: seq<Reply>)
    requires forall f :: f in listing ==> f in index
    ensures Merge(index, listing, replies) == Ok(Merged(index, []))
    decreases |listing|
  {
    if listing != [] {
      MergeCovered(index, listing[..|listing| - 1], replies);
    }
  }

  /** Running the merge again over the same listing on its own output prompts for nothing and returns that output. */
  lemma MergeIdempotent(index: Index, listing: seq<string>, replies: seq<Reply>, again: seq<Reply>)
    requires Merge(index, listing, replies).Ok?
    ensures var out := Merge(index, listing, replies).value.index;
      Merge(out, listing, again) == Ok(Merged(out, []))
  {
    MergeOutcome(index, listing, replies);
    MergeCovered(Merge(index, listing, replies).value.index, listing, again);
  }

  /**
    Two pages, of which the first is indexed: the operator is asked about the
    second only, and its tags line "intro draft" becomes two tags.
   */
  lemma TwoPageScenario(first: Record, now: int)
    ensures var index := map["p1.html" := first];
      var r := Merge(index, ["p1.html", "p2.html"], [Reply("Second Post", "intro draft", now)]);
      && r.Ok?
      && r.value.added == ["p2.html"]
      && r.value.index == index["p2.html" := Record("Second Post", ["intro", "draft"], now)]
  {
    var toks, gaps := ["intro", "draft"], [" "];
    assert Join(toks, gaps) == "intro draft" by {
      assert toks[1..] == ["draft"] && gaps[1..] == [];
    }
    SplitWsUnique("intro draft", toks, gaps);
    var reply := Reply("Second Post", "intro draft", now);
    assert NewRecord(reply) == Record("Second Post", ["intro", "draft"], now);
    OneNewPage(map["p1.html" := first], "p1.html", "p2.html", reply);
  }

  lemma OneNewPage(index: Index, old1: string, new1: string, reply: Reply)
    requires old1 in index && new1 !in index
    ensures var r := Merge(index, [old1, new1], [reply]);
      r == Ok(Merged(index[new1 := NewRecord(reply)], [new1]))
  {
    var listing := [old1, new1];
    assert listing[..1] == [old1] && listing[..1][..0] == [];
    assert Merge(index, listing[..1], [reply]) == Ok(Merged(index, []));
    assert listing[..|listing| - 1] == listing[..1];
    assert [] + [new1] == [new1];
  }
}
