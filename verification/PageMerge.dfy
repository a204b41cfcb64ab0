/** Parsing exam pages in chunks and merging the questions found. */
module PageMerge {
  import opened Common
  import opened OrderedDict
  import opened Text

  const MAX_IMAGES_PER_REQUEST := 5

  type Page = string

  /** A parsed question: str() of its number, and the rest of the object. */
  datatype Found = Found(number: string, body: string)

  function ChunkEnd(pages: seq<Page>, i: nat): nat {
    if i + MAX_IMAGES_PER_REQUEST <= |pages| then i + MAX_IMAGES_PER_REQUEST else |pages|
  }

  /** The pages from position i on, cut into runs of at most five. */
  function Chunks(pages: seq<Page>, i: nat): seq<seq<Page>>
    decreases |pages| - i
  {
    if i >= |pages| then [] else [pages[i..ChunkEnd(pages, i)]] + Chunks(pages, i + MAX_IMAGES_PER_REQUEST)
  }

  function Flatten<T>(parts: seq<seq<T>>): seq<T> {
    if parts == [] then [] else parts[0] + Flatten(parts[1..])
  }

  /** Every page is sent exactly once, in order, in chunks of five pages but for a shorter last one. */
  lemma {:induction false} ChunksCover(pages: seq<Page>, i: nat)
    requires i <= |pages|
    ensures Flatten(Chunks(pages, i)) == pages[i..]
    ensures forall k :: 0 <= k < |Chunks(pages, i)| ==> 1 <= |Chunks(pages, i)[k]| <= 5
    ensures forall k :: 0 <= k < |Chunks(pages, i)| - 1 ==> |Chunks(pages, i)[k]| == 5
    decreases |pages| - i
  {
    if i < |pages| {
      var end := ChunkEnd(pages, i);
      assert pages[i..end] + pages[end..] == pages[i..];
      if end < |pages| {
        ChunksCover(pages, end);
      } else {
        assert Chunks(pages, i + MAX_IMAGES_PER_REQUEST) == [];
      }
    }
  }

  /** What call k for a chunk of pages yields; two calls for equal pages may differ. */
  type ChunkParser = (nat, seq<Page>) -> seq<Found>

  /** What all chunks together yield, in page order. */
  function AllFound(chunks: seq<seq<Page>>, parseChunk: ChunkParser): seq<Found> {
    if chunks == [] then []
    else
      var k := |chunks| - 1;
      AllFound(chunks[..k], parseChunk) + parseChunk(k, chunks[k])
  }

  function NumberOf(q: Found): string {
    Strip(q.number)
  }

  /** The dict of questions by number; questions without a number are dropped. */
  function Merged(questions: seq<Found>): Dict<string, Found> {
    if questions == [] then []
    else
      var earlier, last := Merged(questions[..|questions| - 1]), questions[|questions| - 1];
      if NumberOf(last) == "" then earlier else Put(earlier, NumberOf(last), last)
  }

  // ---- what the merge keeps ------------------------------------------------

  /** The numbers in order of first appearance. */
  function FirstNumbers(questions: seq<Found>): seq<string> {
    if questions == [] then []
    else
      var earlier, number := FirstNumbers(questions[..|questions| - 1]), NumberOf(questions[|questions| - 1]);
      if number == "" || number in earlier then earlier else earlier + [number]
  }

  /** The last question found under a number. */
  function LastWith(questions: seq<Found>, number: string): Option<Found> {
    if questions == [] then None
    else if NumberOf(questions[|questions| - 1]) == number then Some(questions[|questions| - 1])
    else LastWith(questions[..|questions| - 1], number)
  }

  lemma {:induction false} FirstNumbersMeaning(questions: seq<Found>)
    ensures forall n :: n in FirstNumbers(questions) <==> n != "" && LastWith(questions, n).Some?
    ensures forall i, j :: 0 <= i < j < |FirstNumbers(questions)| ==> FirstNumbers(questions)[i] != FirstNumbers(questions)[j]
  {
    if questions != [] {
      FirstNumbersMeaning(questions[..|questions| - 1]);
    }
  }

  /** The merge lists each number once, in order of first appearance, with the last question found under it. */
  lemma {:induction false} MergedMeaning(questions: seq<Found>)
    ensures Keys(Merged(questions)) == FirstNumbers(questions)
    ensures forall n :: n in ToMap(Merged(questions)) <==> n in FirstNumbers(questions)
    ensures forall n :: n in FirstNumbers(questions) ==> LastWith(questions, n) == Some(ToMap(Merged(questions))[n])
  {
    ToMapKeys(Merged(questions));
    FirstNumbersMeaning(questions);
    if questions != [] {
      var init, last := questions[..|questions| - 1], questions[|questions| - 1];
      MergedMeaning(init);
      FirstNumbersMeaning(init);
      PutMeaning(Merged(init), NumberOf(last), last);
    }
  }

  lemma {:induction false} MergedDistinct(questions: seq<Found>)
    ensures DistinctKeys(Merged(questions))
  {
    if questions != [] {
      var init, last := questions[..|questions| - 1], questions[|questions| - 1];
      MergedDistinct(init);
      PutKeepsDistinct(Merged(init), NumberOf(last), last);
    }
  }

  function Values(d: Dict<string, Found>): (v: seq<Found>)
    ensures |v| == |d| && forall i :: 0 <= i < |d| ==> v[i] == d[i].1
  {
    seq(|d|, i requires 0 <= i < |d| => d[i].1)
  }

  /** The result has distinct numbers and holds exactly the last question of every number found. */
  lemma ValuesMeaning(questions: seq<Found>)
    ensures var v, numbers := Values(Merged(questions)), FirstNumbers(questions);
            |v| == |numbers| && forall i :: 0 <= i < |v| ==>
              NumberOf(v[i]) == numbers[i] && LastWith(questions, numbers[i]) == Some(v[i])
  {
    var d := Merged(questions);
    MergedMeaning(questions);
    MergedDistinct(questions);
    forall i | 0 <= i < |d|
      ensures NumberOf(d[i].1) == FirstNumbers(questions)[i] && LastWith(questions, FirstNumbers(questions)[i]) == Some(d[i].1)
    {
      ToMapAt(d, i);
      assert Keys(d)[i] == d[i].0 && d[i].0 in FirstNumbers(questions);
      LastWithNumber(questions, d[i].0);
    }
  }

  lemma {:induction false} LastWithNumber(questions: seq<Found>, number: string)
    ensures LastWith(questions, number).Some? ==> NumberOf(LastWith(questions, number).value) == number
  {
    if questions != [] {
      LastWithNumber(questions[..|questions| - 1], number);
    }
  }

  lemma AllFoundAppend(done: seq<seq<Page>>, chunk: seq<Page>, parseChunk: ChunkParser)
    ensures AllFound(done + [chunk], parseChunk) == AllFound(done, parseChunk) + parseChunk(|done|, chunk)
  {
    assert (done + [chunk])[..|done|] == done;
  }

  lemma ChunksStep(done: seq<seq<Page>>, pages: seq<Page>, i: nat)
    requires i < |pages|
    ensures done + Chunks(pages, i)
         == done + [pages[i..ChunkEnd(pages, i)]] + Chunks(pages, i + MAX_IMAGES_PER_REQUEST)
  {
  }

  lemma {:induction false} FlattenAppend<T>(parts: seq<seq<T>>, part: seq<T>)
    ensures Flatten(parts + [part]) == Flatten(parts) + part
  {
    if parts == [] {
      assert parts + [part] == [part];
      assert [part][1..] == [];
    } else {
      assert (parts + [part])[1..] == parts[1..] + [part];
      FlattenAppend(parts[1..], part);
    }
  }

  /** Call k gets chunk k, and the results are joined in that order. */
  lemma {:induction false} AllFoundMeaning(chunks: seq<seq<Page>>, parseChunk: ChunkParser)
    ensures AllFound(chunks, parseChunk)
         == Flatten(seq(|chunks|, k requires 0 <= k < |chunks| => parseChunk(k, chunks[k])))
  {
    var results := seq(|chunks|, k requires 0 <= k < |chunks| => parseChunk(k, chunks[k]));
    if chunks != [] {
      var n := |chunks| - 1;
      AllFoundMeaning(chunks[..n], parseChunk);
      assert results == seq(n, k requires 0 <= k < n => parseChunk(k, chunks[..n][k])) + [results[n]];
      FlattenAppend(seq(n, k requires 0 <= k < n => parseChunk(k, chunks[..n][k])), results[n]);
    }
  }

  /** Question i comes out exactly when it has a number, up to white space, that no later question has. */
  lemma LastOnesComeOut(questions: seq<Found>, i: nat)
    requires i < |questions|
    ensures Strip(questions[i].number) != "" && (forall j :: i < j < |questions| ==> Strip(questions[j].number) != Strip(questions[i].number)) ==>
              questions[i] in Values(Merged(questions))
    ensures forall v :: v in Values(Merged(questions)) ==>
              exists j :: 0 <= j < |questions| && questions[j] == v && Strip(v.number) != "" &&
                          forall l :: j < l < |questions| ==> Strip(questions[l].number) != Strip(v.number)
  {
    ValuesMeaning(questions);
    FirstNumbersMeaning(questions);
    var values, numbers := Values(Merged(questions)), FirstNumbers(questions);
    var number := Strip(questions[i].number);
    if number != "" && forall j :: i < j < |questions| ==> Strip(questions[j].number) != number {
      LastWithAt(questions, number, i);
      var k :| 0 <= k < |numbers| && numbers[k] == number;
      assert values[k] == questions[i];
    }
    forall v | v in values
      ensures exists j :: 0 <= j < |questions| && questions[j] == v && Strip(v.number) != "" &&
                          forall l :: j < l < |questions| ==> Strip(questions[l].number) != Strip(v.number)
    {
      var k :| 0 <= k < |values| && values[k] == v;
      assert numbers[k] in numbers;
      var j := LastPosition(questions, numbers[k]);
      LastWithAt(questions, numbers[k], j);
    }
  }

  lemma {:induction false} LastWithAt(questions: seq<Found>, number: string, i: nat)
    requires i < |questions| && Strip(questions[i].number) == number
    requires forall j :: i < j < |questions| ==> Strip(questions[j].number) != number
    ensures LastWith(questions, number) == Some(questions[i])
  {
    if i < |questions| - 1 {
      LastWithAt(questions[..|questions| - 1], number, i);
    }
  }

  lemma {:induction false} LastPosition(questions: seq<Found>, number: string) returns (i: nat)
    requires LastWith(questions, number).Some?
    ensures i < |questions| && Strip(questions[i].number) == number
    ensures forall j :: i < j < |questions| ==> Strip(questions[j].number) != number
  {
    i := |questions| - 1;
    if Strip(questions[i].number) != number {
      i := LastPosition(questions[..i], number);
    }
  }

  /** The chunk loop of ExamParser.parse. */
  method ParseChunks(pages: seq<Page>, parseChunk: ChunkParser) returns (all: seq<Found>)
    ensures all == AllFound(Chunks(pages, 0), parseChunk)
  {
    all := [];
    ghost var done: seq<seq<Page>> := [];
    var i, k := 0, 0;
    while i < |pages|
      invariant 0 <= i && k == |done|
      invariant done + Chunks(pages, i) == Chunks(pages, 0)
      invariant all == AllFound(done, parseChunk)
    {
      var chunk := pages[i..ChunkEnd(pages, i)];
      AllFoundAppend(done, chunk, parseChunk);
      ChunksStep(done, pages, i);
      all := all + parseChunk(k, chunk);
      done := done + [chunk];
      i, k := i + MAX_IMAGES_PER_REQUEST, k + 1;
    }
    assert done + [] == done;
  }

  /** ExamParser.parse; without a client it raises. */
  method Parse(pages: seq<Page>, clientReady: bool, parseChunk: ChunkParser)
    returns (result: Result<seq<Found>, string>)
    ensures !clientReady ==> result.Err?
    ensures clientReady ==> result == Ok(Values(Merged(AllFound(Chunks(pages, 0), parseChunk))))
  {
    if !clientReady {
      return Err("Groq client not available. Set GROQ_API_KEYS or pass api_key.");
    }
    var all := ParseChunks(pages, parseChunk);
    var seen: Dict<string, Found> := [];
    for k := 0 to |all|
      invariant seen == Merged(all[..k])
    {
      assert all[..k + 1][..k] == all[..k];
      var number := Strip(all[k].number);
      if number != "" {
        seen := Put(seen, number, all[k]);
      }
    }
    assert all[..|all|] == all;
    result := Ok(Values(seen));
  }
}
