/** The language-model wrapper used by menu planning, reduced to what does
    not need a model: the fallback flag set when the model cannot be loaded,
    the dispatch of generate, and the deterministic fallback that picks the
    first item id of a CSV context. */
module Oracle {
  import opened Text

  /** The role markers around an assistant answer. */
  const StartMarker := "<|start_of_role|>assistant<|end_of_role|>"
  const EndMarker := "<|end_of_text|>"

  /** An answer naming item `id`. */
  function Wrap(id: int): (out: string)
    ensures |out| == |StartMarker| + |IntToString(id)| + |EndMarker|
    ensures out[..|StartMarker|] == StartMarker && out[|out| - |EndMarker|..] == EndMarker
  {
    StartMarker + (IntToString(id) + EndMarker)
  }

  /** The lines of the context: stripped, then split on newlines. */
  function Lines(context: string): (ls: seq<string>)
    ensures |ls| >= 1
  {
    Split(Strip(context), '\n')
  }

  /** The text of a CSV line before its first comma. */
  function Head(line: string): string
  {
    Split(line, ',')[0]
  }

  /** What int() makes of the first field of a line. */
  function LineId(line: string): (r: Option<int>)
    ensures r.Some? ==> Strip(Head(line)) != ""
  {
    PyInt(Head(line))
  }

  /** Whether int() accepts the first field of a line. */
  predicate Parses(line: string)
  {
    LineId(line).Some?
  }

  /** LineId of every line, in line order. */
  function LineIds(ls: seq<string>): (xs: seq<Option<int>>)
    ensures |xs| == |ls|
  {
    seq(|ls|, i requires 0 <= i < |ls| => LineId(ls[i]))
  }

  /** The values of the present entries, in order. */
  function Somes(xs: seq<Option<int>>): (ids: seq<int>)
    ensures |ids| <= |xs|
  {
    if |xs| == 0 then []
    else
      var last := xs[|xs| - 1];
      Somes(xs[..|xs| - 1]) + (if last.Some? then [last.value] else [])
  }

  /** The ids of the lines whose first field is an integer, in line order. */
  function ParsedIds(ls: seq<string>): (ids: seq<int>)
    ensures |ids| <= |ls|
  {
    Somes(LineIds(ls))
  }

  /** The id the fallback answers with: the first parsed id after the header,
      or 1 when there is none. */
  function FallbackId(context: string): (id: int)
    ensures id == 1 || (|Lines(context)| > 1 && id in ParsedIds(Lines(context)[1..]))
  {
    var ls := Lines(context);
    if |ls| <= 1 then 1
    else
      var ids := ParsedIds(ls[1..]);
      if ids == [] then 1 else ids[0]
  }

  lemma {:induction false} SomesAppend(a: seq<Option<int>>, b: seq<Option<int>>)
    ensures Somes(a + b) == Somes(a) + Somes(b)
    decreases |b|
  {
    if |b| > 0 {
      var b' := b[..|b| - 1];
      assert (a + b)[..|a + b| - 1] == a + b';
      SomesAppend(a, b');
    } else {
      assert a + b == a;
    }
  }

  lemma {:induction false} SomesNone(xs: seq<Option<int>>)
    requires forall i :: 0 <= i < |xs| ==> xs[i].None?
    ensures Somes(xs) == []
  {
    if |xs| > 0 {
      SomesNone(xs[..|xs| - 1]);
    }
  }

  /** The first value comes from the earliest present entry. */
  lemma SomesFirst(xs: seq<Option<int>>, k: nat)
    requires k < |xs| && xs[k].Some?
    requires forall i :: 0 <= i < k ==> xs[i].None?
    ensures Somes(xs) != [] && Somes(xs)[0] == xs[k].value
  {
    var pre := xs[..k];
    var q := xs[..k + 1];
    SomesNone(pre);
    assert q[..|q| - 1] == pre;
    assert Somes(q) == [xs[k].value];
    assert q + xs[k + 1..] == xs;
    SomesAppend(q, xs[k + 1..]);
  }

  lemma SomesSnoc(xs: seq<Option<int>>, lo: nat, k: nat)
    requires lo <= k < |xs|
    ensures Somes(xs[lo..k + 1]) == Somes(xs[lo..k]) + (if xs[k].Some? then [xs[k].value] else [])
  {
    assert xs[lo..k + 1][..k - lo] == xs[lo..k];
  }

  lemma LineIdsAppend(a: seq<string>, b: seq<string>)
    ensures LineIds(a + b) == LineIds(a) + LineIds(b)
  {
  }

  lemma ParsedIdsAppend(a: seq<string>, b: seq<string>)
    ensures ParsedIds(a + b) == ParsedIds(a) + ParsedIds(b)
  {
    LineIdsAppend(a, b);
    SomesAppend(LineIds(a), LineIds(b));
  }

  /** The first id comes from the earliest line that parses. */
  lemma ParsedIdsFirst(ls: seq<string>, k: nat)
    requires k < |ls| && Parses(ls[k])
    requires forall i :: 0 <= i < k ==> !Parses(ls[i])
    ensures ParsedIds(ls) != [] && ParsedIds(ls)[0] == LineId(ls[k]).value
  {
    SomesFirst(LineIds(ls), k);
  }

  /** With no line that parses there is no id. */
  lemma ParsedIdsNone(ls: seq<string>)
    requires forall i :: 0 <= i < |ls| ==> !Parses(ls[i])
    ensures ParsedIds(ls) == []
  {
    SomesNone(LineIds(ls));
  }

  /** The fallback's choice, stated line by line: the header never counts;
      the id is that of the earliest data line whose first field int()
      accepts; with no such line (or no data line at all) it is 1. */
  lemma FallbackChoice(context: string, k: nat)
    ensures |Lines(context)| <= 1 ==> FallbackId(context) == 1
    ensures (forall i :: 1 <= i < |Lines(context)| ==> !Parses(Lines(context)[i])) ==>
              FallbackId(context) == 1
    ensures 1 <= k < |Lines(context)| && Parses(Lines(context)[k])
            && (forall i :: 1 <= i < k ==> !Parses(Lines(context)[i])) ==>
              FallbackId(context) == LineId(Lines(context)[k]).value
  {
    var ls := Lines(context);
    if |ls| > 1 {
      if forall i :: 1 <= i < |ls| ==> !Parses(ls[i]) {
        NoDataId(ls);
      }
      if 1 <= k < |ls| && Parses(ls[k]) && (forall i :: 1 <= i < k ==> !Parses(ls[i])) {
        FirstDataId(ls, k);
      }
    }
  }

  /** After the header, no line parses: no id. */
  lemma NoDataId(ls: seq<string>)
    requires |ls| > 0
    requires forall i :: 1 <= i < |ls| ==> !Parses(ls[i])
    ensures ParsedIds(ls[1..]) == []
  {
    var xs := LineIds(ls)[1..];
    LineIdsDrop(ls);
    forall i | 0 <= i < |xs| ensures xs[i].None? {
      assert !Parses(ls[i + 1]);
    }
    SomesNone(xs);
  }

  /** After the header, line k is the first that parses: its id comes first. */
  lemma FirstDataId(ls: seq<string>, k: nat)
    requires 1 <= k < |ls| && Parses(ls[k])
    requires forall i :: 1 <= i < k ==> !Parses(ls[i])
    ensures ParsedIds(ls[1..]) != [] && ParsedIds(ls[1..])[0] == LineId(ls[k]).value
  {
    var xs := LineIds(ls)[1..];
    LineIdsDrop(ls);
    forall i | 0 <= i < k - 1 ensures xs[i].None? {
      assert !Parses(ls[i + 1]);
    }
    assert xs[k - 1] == LineId(ls[k]);
    SomesFirst(xs, k - 1);
  }

  lemma LineIdsDrop(ls: seq<string>)
    requires |ls| > 0
    ensures LineIds(ls[1..]) == LineIds(ls)[1..]
  {
  }

  /** Lines added after a line that parses do not change the choice. */
  lemma LaterLinesIgnored(data: seq<string>, more: seq<string>)
    requires ParsedIds(data) != []
    ensures ParsedIds(data + more) != [] && ParsedIds(data + more)[0] == ParsedIds(data)[0]
  {
    ParsedIdsAppend(data, more);
  }

  /** How the load inside the constructor's try block ends: it completes, it
      raises before `model_instance` is bound (the tokenizer or the model
      cannot be fetched), or it raises after (moving the model to the device
      or switching it to eval mode fails), leaving the model bound. */
  datatype LoadOutcome = Loaded | RaisedBeforeModel | RaisedAfterModel

  /** The model wrapper. `hasModel` says whether a model object is held,
      `useFallback` whether the wrapper answers from the fallback; the model
      itself is not part of this model. */
  class LLM {
    var tokens: int
    var hasModel: bool
    var useFallback: bool

    /** Without transformers nothing is loaded and the wrapper is in fallback
        mode; otherwise fallback mode is set exactly when loading raised, and
        a model stays held when it raised after the model was bound.
        `tokens` is kept as given. */
    constructor(tokens: int, transformersAvailable: bool, load: LoadOutcome)
      ensures this.tokens == tokens
      ensures useFallback <==> !transformersAvailable || !load.Loaded?
      ensures hasModel <==> transformersAvailable && !load.RaisedBeforeModel?
    {
      this.tokens := tokens;
      hasModel := false;
      useFallback := false;
      if !transformersAvailable {
        useFallback := true;
      } else if load.RaisedBeforeModel? {
        useFallback := true;
      } else {
        hasModel := true;
        if load.RaisedAfterModel? {
          useFallback := true;
        }
      }
    }

    /** The fallback answer: the context's lines after the header are read
        in order and the first field of each is given to int(); the first id
        found is answered, 1 when none is. The prompt plays no part. */
    method GenerateFallback(context: string, prompt: string) returns (out: string)
      ensures out == Wrap(FallbackId(context))
    {
      var lines := Split(Strip(context), '\n');
      if |lines| <= 1 {
        return Wrap(1);
      }
      var itemIds := ParseDataLines(lines);
      if itemIds == [] {
        return Wrap(1);
      }
      out := Wrap(itemIds[0]);
    }

    /** The loop of the fallback: every line after the header whose first
        token parses as an integer contributes that integer, in order. */
    static method ParseDataLines(lines: seq<string>) returns (itemIds: seq<int>)
      requires |lines| > 0
      ensures itemIds == ParsedIds(lines[1..])
    {
      ghost var xs := LineIds(lines);
      itemIds := [];
      var k := 1;
      while k < |lines|
        invariant 1 <= k <= |lines|
        invariant itemIds == Somes(xs[1..k])
      {
        SomesSnoc(xs, 1, k);
        var itemId := LineId(lines[k]);
        if itemId.Some? {
          itemIds := itemIds + [itemId.value];
        }
        k := k + 1;
      }
      assert xs[1..k] == LineIds(lines[1..]) by {
        LineIdsDrop(lines);
      }
    }

    /** generate: the fallback when the wrapper is in fallback mode or holds
        no model; otherwise the model's text, `modelOutput`, or the fallback
        when generation raised (None). It never fails. */
    method Generate(context: string, prompt: string, modelOutput: Option<string>) returns (out: string)
      ensures useFallback || !hasModel || modelOutput.None? ==> out == Wrap(FallbackId(context))
      ensures !useFallback && hasModel && modelOutput.Some? ==> out == modelOutput.value
    {
      if useFallback || !hasModel {
        out := GenerateFallback(context, prompt);
        return;
      }
      if modelOutput.None? {
        out := GenerateFallback(context, prompt);
      } else {
        out := modelOutput.value;
      }
    }
  }

  /** A wrapper loaded without transformers answers every request from the
      fallback, whatever the model would have said. */
  method FallbackOnly(context: string, prompt: string, modelOutput: Option<string>) returns (out: string)
    ensures out == Wrap(FallbackId(context))
  {
    var llm := new LLM(500, false, Loaded);
    out := llm.Generate(context, prompt, modelOutput);
  }

  /** A load that raised after the model was bound leaves a model held, but
      generate checks the fallback flag first, so every answer still comes
      from the fallback. */
  method RaisedAfterLoadFallsBack(context: string, prompt: string, modelOutput: Option<string>)
    returns (out: string)
    ensures out == Wrap(FallbackId(context))
  {
    var llm := new LLM(500, true, RaisedAfterModel);
    assert llm.hasModel;
    out := llm.Generate(context, prompt, modelOutput);
  }
}
