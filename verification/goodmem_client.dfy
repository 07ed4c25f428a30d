/** The GoodMem retrieval client (`GoodMemClient`): how a retrieval request is
    sized and whether it is reranked, how the newline-delimited JSON reply is
    merged into one hit per memory, how the AI overview is requested and read
    back, and how the space listing is read. HTTP is abstracted as a `send`
    function from request to reply (`None` when the exchange fails), and each
    reply line is taken as already decoded. */
module GoodMemClient {
  import opened Wrappers
  import opened Text
  import opened Spaces
  import opened Seqs
  import opened Sorting
  import opened Models

  const PostProcessorFactory: string := "com.goodmem.retrieval.postprocess.ChatPostProcessorFactory"

  /** Default reranker candidate count when none is configured. */
  const DefaultRerankCandidates: int := 100

  /** Default overview candidate count when none is configured. */
  const DefaultOverviewCandidates: int := 24

  /** The client's configuration, read once at construction. */
  datatype ClientSettings = ClientSettings(
    rerankerId: Option<string>,
    rerankCandidateSize: int,
    rerankChronologicalResort: bool,
    overviewLlmId: Option<string>,
    overviewSysPrompt: Option<string>,
    overviewPrompt: Option<string>,
    overviewTokenBudget: int,
    overviewTemperature: real,
    overviewMaxResults: int,
    overviewCandidateSize: int,
    overviewRelevanceThreshold: Option<real>)

  // ---------------------------------------------------------------------------
  // Retrieval requests

  /** The reranking post-processor block of a retrieval request. */
  datatype RerankConfig = RerankConfig(
    factory: string,
    rerankerId: string,
    maxResults: int,
    chronologicalResort: bool)

  /** A retrieval request against one space; memories are always fetched and
      their content never is. */
  datatype RetrieveRequest = RetrieveRequest(
    message: Option<string>,
    requestedSize: int,
    spaceId: Option<string>,
    filter: Option<string>,
    rerank: Option<RerankConfig>)

  /** `shouldApplyReranker`: a reranker is configured and no filter is given. */
  predicate ShouldApplyReranker(s: ClientSettings, filter: Option<string>) {
    !IsNullOrBlank(s.rerankerId) && IsNullOrBlank(filter)
  }

  /** `resolveRerankCandidateSize`: the configured count when positive, 100
      otherwise. */
  function ResolveRerankCandidateSize(s: ClientSettings): (r: int)
    ensures r > 0
    ensures s.rerankCandidateSize > 0 <==> r == s.rerankCandidateSize
  {
    if s.rerankCandidateSize > 0 then s.rerankCandidateSize else DefaultRerankCandidates
  }

  function Max(a: int, b: int): (r: int)
    ensures r >= a && r >= b && (r == a || r == b)
  {
    if a >= b then a else b
  }

  /** The request `retrieve` sends for a positive limit. */
  function BuildRetrieveRequest(
    s: ClientSettings, query: Option<string>, spaceId: Option<string>, limit: int, filter: Option<string>)
    : (r: RetrieveRequest)
    ensures r.message == query && r.spaceId == spaceId
    ensures r.rerank.Some? <==> ShouldApplyReranker(s, filter)
    ensures r.requestedSize >= limit
    ensures r.rerank.None? ==> r.requestedSize == limit
    ensures r.rerank.Some? ==>
      && r.requestedSize >= ResolveRerankCandidateSize(s)
      && (r.requestedSize == limit || r.requestedSize == ResolveRerankCandidateSize(s))
      && r.rerank.value == RerankConfig(PostProcessorFactory, s.rerankerId.value, limit, s.rerankChronologicalResort)
    ensures r.filter.Some? <==> !IsNullOrBlank(filter)
    ensures r.filter.Some? ==> r.filter == filter
  {
    var rerank := ShouldApplyReranker(s, filter);
    RetrieveRequest(
      query,
      if rerank then Max(limit, ResolveRerankCandidateSize(s)) else limit,
      spaceId,
      if IsNullOrBlank(filter) then None else filter,
      if rerank then Some(RerankConfig(PostProcessorFactory, s.rerankerId.value, limit, s.rerankChronologicalResort))
      else None)
  }

  /** A filtered request is never reranked and asks for exactly the limit. */
  lemma FilteredRequestNotReranked(
    s: ClientSettings, query: Option<string>, spaceId: Option<string>, limit: int, filter: string)
    requires !IsBlank(filter)
    ensures BuildRetrieveRequest(s, query, spaceId, limit, Some(filter)).rerank.None?
    ensures BuildRetrieveRequest(s, query, spaceId, limit, Some(filter)).requestedSize == limit
    ensures BuildRetrieveRequest(s, query, spaceId, limit, Some(filter)).filter == Some(filter)
  {
  }

  // ---------------------------------------------------------------------------
  // Scores

  /** `normalizeScore`: a missing or NaN relevance (`None`) scores 0, and a
      negative one is negated. */
  function NormalizeScore(relevance: Option<real>): (r: real)
    ensures r >= 0.0
    ensures relevance.None? ==> r == 0.0
    ensures relevance.Some? ==> r == relevance.value || r == -relevance.value
  {
    match relevance
    case None => 0.0
    case Some(x) => if x < 0.0 then -x else x
  }

  /** The normalised score is the magnitude of the relevance, so two
      relevances of opposite sign score alike, and normalising again changes
      nothing. */
  lemma NormalizeScoreIsMagnitude(x: real)
    ensures NormalizeScore(Some(x)) == NormalizeScore(Some(-x))
    ensures NormalizeScore(Some(x)) >= x && NormalizeScore(Some(x)) >= -x
    ensures NormalizeScore(Some(NormalizeScore(Some(x)))) == NormalizeScore(Some(x))
  {
  }

  // ---------------------------------------------------------------------------
  // Retrieval replies

  /** The `chunk` part of a retrieved item: the memory it belongs to, its text
      and the relevance score beside it. */
  datatype Chunk = Chunk(memoryId: Option<string>, text: Option<string>, relevance: Option<real>)

  /** A `memoryDefinition`: a memory's id and its metadata node (which may be
      JSON `null`; only an absent node is `None`). */
  datatype Definition = Definition(memoryId: Option<string>, metadata: Option<Json>)

  /** One line of the reply stream. */
  datatype RetrieveLine =
    | Blank
    | Malformed
    | Record(definition: Option<Definition>, chunk: Option<Chunk>)

  datatype RetrieveReply = RetrieveReply(status: int, lines: seq<RetrieveLine>)

  /** The per-memory maps while the stream is read: the best (score, text)
      seen for each memory, the metadata of each memory, and the order in which
      memories first received a chunk. */
  datatype MergeState = MergeState(
    order: seq<string>,
    best: map<string, (real, string)>,
    metas: map<string, Json>)

  const EmptyMerge: MergeState := MergeState([], map[], map[])

  /** A line that names a memory and carries its metadata. */
  predicate HasDefinition(line: RetrieveLine) {
    line.Record? && line.definition.Some?
    && line.definition.value.memoryId.Some? && line.definition.value.metadata.Some?
  }

  /** A line that carries a chunk with a memory id and a text. */
  predicate HasChunk(line: RetrieveLine) {
    line.Record? && line.chunk.Some?
    && line.chunk.value.memoryId.Some? && line.chunk.value.text.Some?
  }

  /** One record line: the metadata first, then the chunk, which replaces the
      memory's best entry only with a strictly higher score. */
  function Absorb(st: MergeState, line: RetrieveLine): (r: MergeState)
    requires line.Record?
    ensures r.metas == if HasDefinition(line)
      then st.metas[line.definition.value.memoryId.value := line.definition.value.metadata.value]
      else st.metas
    ensures !HasChunk(line) ==> r.best == st.best && r.order == st.order
    ensures HasChunk(line) ==>
      var id := line.chunk.value.memoryId.value;
      var e := (NormalizeScore(line.chunk.value.relevance), line.chunk.value.text.value);
      && r.best == (if id !in st.best || e.0 > st.best[id].0 then st.best[id := e] else st.best)
      && r.order == (if id in st.best then st.order else st.order + [id])
  {
    var st1 :=
      if HasDefinition(line) then
        st.(metas := st.metas[line.definition.value.memoryId.value := line.definition.value.metadata.value])
      else st;
    if HasChunk(line) then
      var id := line.chunk.value.memoryId.value;
      var score := NormalizeScore(line.chunk.value.relevance);
      if id !in st1.best || score > st1.best[id].0 then
        st1.(best := st1.best[id := (score, line.chunk.value.text.value)],
             order := if id in st1.best then st1.order else st1.order + [id])
      else st1
    else st1
  }

  /** Every line decodes. */
  predicate WellFormed(lines: seq<RetrieveLine>) {
    forall i :: 0 <= i < |lines| ==> !lines[i].Malformed?
  }

  /** Reads the stream line by line; blank lines are skipped and a line that
      does not decode aborts the whole retrieval. */
  function Merge(lines: seq<RetrieveLine>): (r: Result<MergeState, string>)
    ensures r.Success? <==> WellFormed(lines)
    decreases |lines|
  {
    if |lines| == 0 then Success(EmptyMerge)
    else
      var prefix := lines[..|lines| - 1];
      assert forall i :: 0 <= i < |prefix| ==> prefix[i] == lines[i];
      match Merge(prefix)
      case Failure(e) => Failure(e)
      case Success(st) =>
        match lines[|lines| - 1]
        case Blank => Success(st)
        case Malformed => Failure("malformed reply line")
        case Record(_, _) => Success(Absorb(st, lines[|lines| - 1]))
  }

  function Fst(e: (real, string)): real { e.0 }

  /** The (score, text) a line contributes for memory `id`. */
  function EntryOf(line: RetrieveLine, id: string): (r: seq<(real, string)>)
    ensures |r| <= 1
    ensures |r| == 1 ==> r[0].0 >= 0.0
  {
    if HasChunk(line) && line.chunk.value.memoryId.value == id
    then [(NormalizeScore(line.chunk.value.relevance), line.chunk.value.text.value)]
    else []
  }

  /** Reference reading of the stream: the (score, text) of every chunk for
      memory `id`, in stream order. */
  function ChunkEntries(lines: seq<RetrieveLine>, id: string): (r: seq<(real, string)>)
    ensures forall k :: 0 <= k < |r| ==> r[k].0 >= 0.0
  {
    if |lines| == 0 then []
    else ChunkEntries(lines[..|lines| - 1], id) + EntryOf(lines[|lines| - 1], id)
  }

  /** The metadata a line gives memory `id`, if it defines it. */
  function MetaOf(line: RetrieveLine, id: string): Option<Json> {
    if HasDefinition(line) && line.definition.value.memoryId.value == id
    then line.definition.value.metadata
    else None
  }

  /** Reference reading of the stream: the metadata of the last definition of
      memory `id`, if any. */
  function LastMetadata(lines: seq<RetrieveLine>, id: string): Option<Json> {
    if |lines| == 0 then None
    else if MetaOf(lines[|lines| - 1], id).Some? then MetaOf(lines[|lines| - 1], id)
    else LastMetadata(lines[..|lines| - 1], id)
  }

  lemma ReferenceSnoc(prefix: seq<RetrieveLine>, line: RetrieveLine, id: string)
    ensures ChunkEntries(prefix + [line], id) == ChunkEntries(prefix, id) + EntryOf(line, id)
    ensures LastMetadata(prefix + [line], id)
         == if MetaOf(line, id).Some? then MetaOf(line, id) else LastMetadata(prefix, id)
  {
    var lines := prefix + [line];
    assert lines[..|lines| - 1] == prefix;
  }

  /** The best entries agree with the reference reading of `lines`. */
  ghost predicate BestReflects(best: map<string, (real, string)>, lines: seq<RetrieveLine>) {
    forall id :: (id in best <==> |ChunkEntries(lines, id)| > 0)
      && (id in best ==> best[id] == ChunkEntries(lines, id)[FirstMaxIndex(ChunkEntries(lines, id), Fst)])
  }

  /** The metadata agrees with the reference reading of `lines`. */
  ghost predicate MetasReflect(metas: map<string, Json>, lines: seq<RetrieveLine>) {
    forall id :: (id in metas <==> LastMetadata(lines, id).Some?)
      && (id in metas ==> LastMetadata(lines, id) == Some(metas[id]))
  }

  /** The order lists each memory with a best entry exactly once. */
  ghost predicate OrderListsBest(st: MergeState) {
    Distinct(st.order) && forall id :: id in st.order <==> id in st.best
  }

  /** The merged state agrees with the reference reading of `lines`. */
  ghost predicate Reflects(st: MergeState, lines: seq<RetrieveLine>) {
    BestReflects(st.best, lines) && MetasReflect(st.metas, lines) && OrderListsBest(st)
  }

  /** For every memory, the merge keeps the first of its highest-scoring
      chunks and the metadata of its last definition, and lists each memory
      that has a chunk exactly once. */
  lemma {:induction false} MergeReflectsStream(lines: seq<RetrieveLine>)
    requires WellFormed(lines)
    ensures Merge(lines).Success? && Reflects(Merge(lines).value, lines)
    decreases |lines|
  {
    if |lines| > 0 {
      var prefix := lines[..|lines| - 1];
      assert forall i :: 0 <= i < |prefix| ==> prefix[i] == lines[i];
      MergeReflectsStream(prefix);
      MergeStep(lines);
    }
  }

  /** One more line keeps the merged state in agreement with the stream. */
  lemma MergeStep(lines: seq<RetrieveLine>)
    requires |lines| > 0 && WellFormed(lines)
    requires Merge(lines[..|lines| - 1]).Success?
    requires Reflects(Merge(lines[..|lines| - 1]).value, lines[..|lines| - 1])
    ensures Merge(lines).Success? && Reflects(Merge(lines).value, lines)
  {
    var prefix := lines[..|lines| - 1];
    var line := lines[|lines| - 1];
    var st := Merge(prefix).value;
    assert prefix + [line] == lines;
    if line.Record? {
      RecordReflects(st, prefix, line);
      assert Merge(lines) == Success(Absorb(st, line));
    } else {
      assert line.Blank?;
      BlankReflects(st, prefix, line);
      assert Merge(lines) == Success(st);
    }
  }

  lemma RecordReflects(st: MergeState, prefix: seq<RetrieveLine>, line: RetrieveLine)
    requires line.Record? && Reflects(st, prefix)
    ensures Reflects(Absorb(st, line), prefix + [line])
  {
    AbsorbKeepsMetas(st, prefix, line);
    AbsorbKeepsBest(st, prefix, line);
    AbsorbKeepsOrder(st, line);
  }

  lemma BlankReflects(st: MergeState, prefix: seq<RetrieveLine>, line: RetrieveLine)
    requires line.Blank? && Reflects(st, prefix)
    ensures Reflects(st, prefix + [line])
  {
    BlankKeepsReference(prefix, line);
  }

  lemma BlankKeepsReference(prefix: seq<RetrieveLine>, line: RetrieveLine)
    requires line.Blank?
    ensures forall id :: ChunkEntries(prefix + [line], id) == ChunkEntries(prefix, id)
    ensures forall id :: LastMetadata(prefix + [line], id) == LastMetadata(prefix, id)
  {
    forall id ensures ChunkEntries(prefix + [line], id) == ChunkEntries(prefix, id)
                   && LastMetadata(prefix + [line], id) == LastMetadata(prefix, id) {
      ReferenceSnoc(prefix, line, id);
      assert EntryOf(line, id) == [];
    }
  }

  lemma AbsorbKeepsMetas(st: MergeState, prefix: seq<RetrieveLine>, line: RetrieveLine)
    requires line.Record?
    requires MetasReflect(st.metas, prefix)
    ensures MetasReflect(Absorb(st, line).metas, prefix + [line])
  {
    var m := Absorb(st, line).metas;
    forall id ensures (id in m <==> LastMetadata(prefix + [line], id).Some?)
                   && (id in m ==> LastMetadata(prefix + [line], id) == Some(m[id])) {
      ReferenceSnoc(prefix, line, id);
    }
  }

  lemma AbsorbKeepsOrder(st: MergeState, line: RetrieveLine)
    requires line.Record?
    requires OrderListsBest(st)
    ensures OrderListsBest(Absorb(st, line))
  {
  }

  lemma AbsorbKeepsBest(st: MergeState, prefix: seq<RetrieveLine>, line: RetrieveLine)
    requires line.Record?
    requires BestReflects(st.best, prefix)
    ensures BestReflects(Absorb(st, line).best, prefix + [line])
  {
    var b := Absorb(st, line).best;
    forall id ensures (id in b <==> |ChunkEntries(prefix + [line], id)| > 0)
      && (id in b ==> b[id] == ChunkEntries(prefix + [line], id)[FirstMaxIndex(ChunkEntries(prefix + [line], id), Fst)])
    {
      AbsorbBestFor(st, prefix, line, id);
    }
  }

  /** One memory's best entry after absorbing a line. */
  lemma AbsorbBestFor(st: MergeState, prefix: seq<RetrieveLine>, line: RetrieveLine, id: string)
    requires line.Record?
    requires id in st.best <==> |ChunkEntries(prefix, id)| > 0
    requires id in st.best ==> st.best[id] == ChunkEntries(prefix, id)[FirstMaxIndex(ChunkEntries(prefix, id), Fst)]
    ensures id in Absorb(st, line).best <==> |ChunkEntries(prefix + [line], id)| > 0
    ensures id in Absorb(st, line).best ==>
      Absorb(st, line).best[id] == ChunkEntries(prefix + [line], id)[FirstMaxIndex(ChunkEntries(prefix + [line], id), Fst)]
  {
    ReferenceSnoc(prefix, line, id);
    if EntryOf(line, id) == [] {
      AbsorbBestOther(st, prefix, line, id);
    } else {
      AbsorbBestSame(st, prefix, line, id);
    }
  }

  lemma AbsorbBestOther(st: MergeState, prefix: seq<RetrieveLine>, line: RetrieveLine, id: string)
    requires line.Record? && EntryOf(line, id) == []
    ensures ChunkEntries(prefix + [line], id) == ChunkEntries(prefix, id)
    ensures id in Absorb(st, line).best <==> id in st.best
    ensures id in st.best ==> Absorb(st, line).best[id] == st.best[id]
  {
    ReferenceSnoc(prefix, line, id);
    assert ChunkEntries(prefix, id) + [] == ChunkEntries(prefix, id);
  }

  lemma AbsorbBestSame(st: MergeState, prefix: seq<RetrieveLine>, line: RetrieveLine, id: string)
    requires line.Record? && EntryOf(line, id) != []
    requires id in st.best <==> |ChunkEntries(prefix, id)| > 0
    requires id in st.best ==> st.best[id] == ChunkEntries(prefix, id)[FirstMaxIndex(ChunkEntries(prefix, id), Fst)]
    ensures id in Absorb(st, line).best && |ChunkEntries(prefix + [line], id)| > 0
    ensures Absorb(st, line).best[id] == ChunkEntries(prefix + [line], id)[FirstMaxIndex(ChunkEntries(prefix + [line], id), Fst)]
  {
    ReferenceSnoc(prefix, line, id);
    var earlier := ChunkEntries(prefix, id);
    var e := EntryOf(line, id)[0];
    assert EntryOf(line, id) == [e];
    if |earlier| > 0 {
      FirstMaxExtend(earlier, e, Fst);
      assert (earlier + [e])[FirstMaxIndex(earlier, Fst)] == earlier[FirstMaxIndex(earlier, Fst)];
    } else {
      assert earlier + [e] == [e];
    }
  }

  /** `h` is the hit for its memory in state `st`: it carries the memory's
      metadata and its best (score, text). */
  predicate HitMatches(h: MemoryHit, space: SpaceType, st: MergeState) {
    && h.space == space
    && h.memoryId in st.metas && h.memoryId in st.best
    && h.metadata == st.metas[h.memoryId]
    && (h.score, h.text) == st.best[h.memoryId]
  }

  /** The hits emitted from a merged state, walking `ids` in order: one per
      memory that has both metadata and a text. */
  function HitsFrom(space: SpaceType, st: MergeState, ids: seq<string>): (r: seq<MemoryHit>)
    ensures |r| <= |ids|
    ensures forall k :: 0 <= k < |r| ==> HitMatches(r[k], space, st) && r[k].memoryId in ids
  {
    if |ids| == 0 then []
    else
      var rest := HitsFrom(space, st, ids[1..]);
      var id := ids[0];
      if id in st.metas && id in st.best then
        [MemoryHit(space, id, st.metas[id], st.best[id].1, st.best[id].0)] + rest
      else
        rest
  }

  /** Every listed memory with both metadata and a text has a hit. */
  lemma {:induction false} HitsFromCovers(space: SpaceType, st: MergeState, ids: seq<string>, id: string)
    requires id in ids && id in st.metas && id in st.best
    ensures exists k :: 0 <= k < |HitsFrom(space, st, ids)| && HitsFrom(space, st, ids)[k].memoryId == id
  {
    var r := HitsFrom(space, st, ids);
    if ids[0] == id {
      assert r[0].memoryId == id;
    } else {
      HitsFromCovers(space, st, ids[1..], id);
      var rest := HitsFrom(space, st, ids[1..]);
      var k :| 0 <= k < |rest| && rest[k].memoryId == id;
      if ids[0] in st.metas && ids[0] in st.best {
        assert r[k + 1] == rest[k];
      } else {
        assert r == rest;
      }
    }
  }

  /** Walking distinct ids yields hits with distinct ids. */
  lemma {:induction false} HitsFromDistinct(space: SpaceType, st: MergeState, ids: seq<string>)
    requires Distinct(ids)
    ensures DistinctIds(HitsFrom(space, st, ids))
  {
    if |ids| > 0 {
      var rest := HitsFrom(space, st, ids[1..]);
      assert Distinct(ids[1..]) by {
        forall i, j | 0 <= i < j < |ids[1..]| ensures ids[1..][i] != ids[1..][j] {
          assert ids[1..][i] == ids[i + 1] && ids[1..][j] == ids[j + 1];
        }
      }
      HitsFromDistinct(space, st, ids[1..]);
      assert ids[0] !in ids[1..];
    }
  }

  /** No memory id occurs in two hits. */
  predicate DistinctIds(hits: seq<MemoryHit>) {
    forall i, j :: 0 <= i < j < |hits| ==> hits[i].memoryId != hits[j].memoryId
  }

  /** `retrieve`: nothing for a non-positive limit (and no request is made);
      a failed exchange, a status other than 200 or an undecodable line is an
      error; otherwise one hit per memory that has metadata and a chunk. Hits
      come in the order memories first received a chunk. */
  function Retrieve(
    s: ClientSettings, send: RetrieveRequest -> Option<RetrieveReply>,
    query: Option<string>, space: SpaceType, spaceId: Option<string>, limit: int, filter: Option<string>)
    : (r: Result<seq<MemoryHit>, string>)
    ensures limit <= 0 ==> r == Success([])
    ensures limit > 0 ==>
      var reply := send(BuildRetrieveRequest(s, query, spaceId, limit, filter));
      r.Success? <==> reply.Some? && reply.value.status == 200 && WellFormed(reply.value.lines)
    ensures r.Success? ==> DistinctIds(r.value)
    ensures r.Success? ==> forall k :: 0 <= k < |r.value| ==> r.value[k].space == space && r.value[k].score >= 0.0
  {
    if limit <= 0 then Success([])
    else
      match send(BuildRetrieveRequest(s, query, spaceId, limit, filter))
      case None => Failure("retrieve request failed")
      case Some(reply) =>
        if reply.status != 200 then Failure("retrieve failed with status " + IntToString(reply.status))
        else
          match Merge(reply.lines)
          case Failure(e) => Failure(e)
          case Success(st) =>
            MergeReflectsStream(reply.lines);
            assert forall id :: id in st.best ==> st.best[id].0 >= 0.0 by {
              forall id | id in st.best ensures st.best[id].0 >= 0.0 {
                var es := ChunkEntries(reply.lines, id);
                assert st.best[id] == es[FirstMaxIndex(es, Fst)];
              }
            }
            HitsFromDistinct(space, st, st.order);
            Success(HitsFrom(space, st, st.order))
  }

  /** With a non-positive limit the reply is never consulted. */
  lemma RetrieveSkipsRequest(
    s: ClientSettings, send1: RetrieveRequest -> Option<RetrieveReply>, send2: RetrieveRequest -> Option<RetrieveReply>,
    query: Option<string>, space: SpaceType, spaceId: Option<string>, limit: int, filter: Option<string>)
    requires limit <= 0
    ensures Retrieve(s, send1, query, space, spaceId, limit, filter)
         == Retrieve(s, send2, query, space, spaceId, limit, filter)
  {
  }

  /** Each hit of a successful retrieval carries, for its memory, the first
      highest-scoring chunk of the stream and the metadata of the memory's last
      definition; and every memory with both a chunk and a definition yields a
      hit. */
  lemma RetrieveKeepsBestChunk(
    s: ClientSettings, send: RetrieveRequest -> Option<RetrieveReply>,
    query: Option<string>, space: SpaceType, spaceId: Option<string>, limit: int, filter: Option<string>)
    requires limit > 0
    requires Retrieve(s, send, query, space, spaceId, limit, filter).Success?
    ensures var lines := send(BuildRetrieveRequest(s, query, spaceId, limit, filter)).value.lines;
      var hits := Retrieve(s, send, query, space, spaceId, limit, filter).value;
      && (forall k :: 0 <= k < |hits| ==>
            var es := ChunkEntries(lines, hits[k].memoryId);
            && |es| > 0
            && (hits[k].score, hits[k].text) == es[FirstMaxIndex(es, Fst)]
            && LastMetadata(lines, hits[k].memoryId) == Some(hits[k].metadata))
      && (forall id :: |ChunkEntries(lines, id)| > 0 && LastMetadata(lines, id).Some? ==>
            exists k :: 0 <= k < |hits| && hits[k].memoryId == id)
  {
    var lines := send(BuildRetrieveRequest(s, query, spaceId, limit, filter)).value.lines;
    MergeReflectsStream(lines);
    var st := Merge(lines).value;
    forall id | |ChunkEntries(lines, id)| > 0 && LastMetadata(lines, id).Some?
      ensures exists k :: 0 <= k < |HitsFrom(space, st, st.order)| && HitsFrom(space, st, st.order)[k].memoryId == id
    {
      HitsFromCovers(space, st, st.order, id);
    }
  }

  // ---------------------------------------------------------------------------
  // Overview

  /** `isOverviewEnabled`: an overview model is configured. */
  predicate OverviewEnabled(s: ClientSettings) {
    !IsNullOrBlank(s.overviewLlmId)
  }

  /** `resolveOverviewCandidateSize`: the configured candidate count when
      positive (24 otherwise), raised to the overview's result count. */
  function ResolveOverviewCandidateSize(s: ClientSettings): (r: int)
    ensures r > 0
    ensures r >= s.overviewMaxResults
    ensures s.overviewCandidateSize > 0 ==> r >= s.overviewCandidateSize
    ensures r == s.overviewMaxResults || r == s.overviewCandidateSize || r == DefaultOverviewCandidates
  {
    var candidate := if s.overviewCandidateSize > 0 then s.overviewCandidateSize else DefaultOverviewCandidates;
    if s.overviewMaxResults > candidate then s.overviewMaxResults else candidate
  }

  /** The overview request: the generation settings are sent only when set. */
  datatype OverviewRequest = OverviewRequest(
    message: Option<string>,
    requestedSize: int,
    spaceIds: seq<string>,
    factory: string,
    llmId: string,
    rerankerId: Option<string>,
    relevanceThreshold: Option<real>,
    chronologicalResort: Option<bool>,
    maxResults: Option<int>,
    temperature: Option<real>,
    tokenBudget: Option<int>,
    sysPrompt: Option<string>,
    prompt: Option<string>)

  /** The space ids that are present and not blank, in order. */
  function NonBlankIds(ids: seq<Option<string>>): (r: seq<string>)
    ensures |r| <= |ids|
    ensures forall k :: 0 <= k < |r| ==> !IsBlank(r[k]) && Some(r[k]) in ids
    ensures forall k :: 0 <= k < |ids| && !IsNullOrBlank(ids[k]) ==> ids[k].value in r
    ensures |r| == 0 <==> forall k :: 0 <= k < |ids| ==> IsNullOrBlank(ids[k])
  {
    if |ids| == 0 then []
    else (if IsNullOrBlank(ids[0]) then [] else [ids[0].value]) + NonBlankIds(ids[1..])
  }

  function SetIf<T>(b: bool, v: T): (r: Option<T>)
    ensures r.Some? <==> b
    ensures r.Some? ==> r.value == v
  {
    if b then Some(v) else None
  }

  function BuildOverviewRequest(s: ClientSettings, query: Option<string>, ids: seq<string>): (r: OverviewRequest)
    requires OverviewEnabled(s)
    ensures r.message == query
    ensures r.spaceIds == ids && r.llmId == s.overviewLlmId.value && r.factory == PostProcessorFactory
    ensures r.requestedSize == ResolveOverviewCandidateSize(s)
    ensures r.rerankerId.Some? <==> !IsNullOrBlank(s.rerankerId)
    ensures r.rerankerId.Some? ==> r.rerankerId == s.rerankerId
    ensures r.relevanceThreshold == (if r.rerankerId.Some? then s.overviewRelevanceThreshold else None)
    ensures r.chronologicalResort.Some? <==> r.rerankerId.Some?
    ensures r.chronologicalResort.Some? ==> r.chronologicalResort.value == s.rerankChronologicalResort
    ensures r.maxResults.Some? <==> s.overviewMaxResults > 0
    ensures r.maxResults.Some? ==> r.maxResults.value == s.overviewMaxResults
    ensures r.temperature.Some? <==> s.overviewTemperature >= 0.0
    ensures r.temperature.Some? ==> r.temperature.value == s.overviewTemperature
    ensures r.tokenBudget.Some? <==> s.overviewTokenBudget > 0
    ensures r.tokenBudget.Some? ==> r.tokenBudget.value == s.overviewTokenBudget
    ensures r.sysPrompt.Some? <==> !IsNullOrBlank(s.overviewSysPrompt)
    ensures r.sysPrompt.Some? ==> r.sysPrompt == s.overviewSysPrompt
    ensures r.prompt.Some? <==> !IsNullOrBlank(s.overviewPrompt)
    ensures r.prompt.Some? ==> r.prompt == s.overviewPrompt
  {
    var rerank := !IsNullOrBlank(s.rerankerId);
    OverviewRequest(
      query,
      ResolveOverviewCandidateSize(s),
      ids,
      PostProcessorFactory,
      s.overviewLlmId.value,
      if rerank then s.rerankerId else None,
      if rerank then s.overviewRelevanceThreshold else None,
      SetIf(rerank, s.rerankChronologicalResort),
      SetIf(s.overviewMaxResults > 0, s.overviewMaxResults),
      SetIf(s.overviewTemperature >= 0.0, s.overviewTemperature),
      SetIf(s.overviewTokenBudget > 0, s.overviewTokenBudget),
      if IsNullOrBlank(s.overviewSysPrompt) then None else s.overviewSysPrompt,
      if IsNullOrBlank(s.overviewPrompt) then None else s.overviewPrompt)
  }

  /** One line of the overview stream: the text of its `abstractReply`, its
      top-level textual `summary`, and the textual `summary` of each non-null
      entry of its `results` array (`None` where an entry has none). */
  datatype OverviewLine =
    | OBlank
    | OMalformed
    | ORecord(abstractText: Option<string>, summary: Option<string>, resultSummaries: seq<Option<string>>)

  datatype OverviewReply = OverviewReply(status: int, lines: seq<OverviewLine>)

  /** The trimmed first non-blank result summary. */
  function FirstResultSummary(items: seq<Option<string>>): (r: Option<string>)
    ensures r.Some? ==> exists k :: 0 <= k < |items| && !IsNullOrBlank(items[k]) && r.value == Trim(items[k].value)
    ensures r.None? <==> forall k :: 0 <= k < |items| ==> IsNullOrBlank(items[k])
  {
    if |items| == 0 then None
    else if !IsNullOrBlank(items[0]) then Some(Trim(items[0].value))
    else
      var rest := FirstResultSummary(items[1..]);
      assert forall k :: 1 <= k < |items| ==> items[k] == items[1..][k - 1];
      rest
  }

  /** A non-blank abstract always replaces the overview read so far; the
      summaries are consulted only while there is none. */
  function OverviewStep(overview: Option<string>, line: OverviewLine): Option<string>
    requires line.ORecord?
  {
    var afterAbstract :=
      if !IsNullOrBlank(line.abstractText) then Some(Trim(line.abstractText.value)) else overview;
    if afterAbstract.Some? then afterAbstract
    else if line.summary.Some? then Some(Trim(line.summary.value))
    else FirstResultSummary(line.resultSummaries)
  }

  predicate OverviewWellFormed(lines: seq<OverviewLine>) {
    forall i :: 0 <= i < |lines| ==> !lines[i].OMalformed?
  }

  /** Reads the overview stream; an undecodable line is an error. */
  function ParseOverview(lines: seq<OverviewLine>): (r: Result<Option<string>, string>)
    ensures r.Success? <==> OverviewWellFormed(lines)
    ensures r.Success? && r.value.Some? ==> Trim(r.value.value) == r.value.value
    decreases |lines|
  {
    if |lines| == 0 then Success(None)
    else
      var prefix := lines[..|lines| - 1];
      assert forall i :: 0 <= i < |prefix| ==> prefix[i] == lines[i];
      match ParseOverview(prefix)
      case Failure(e) => Failure(e)
      case Success(o) =>
        match lines[|lines| - 1]
        case OBlank => Success(o)
        case OMalformed => Failure("malformed overview line")
        case ORecord(a, sm, rs) =>
          var r := OverviewStep(o, lines[|lines| - 1]);
          TrimResultIsTrimmed(o, lines[|lines| - 1]);
          Success(r)
  }

  lemma TrimResultIsTrimmed(o: Option<string>, line: OverviewLine)
    requires line.ORecord?
    requires o.Some? ==> Trim(o.value) == o.value
    ensures OverviewStep(o, line).Some? ==> Trim(OverviewStep(o, line).value) == OverviewStep(o, line).value
  {
    var r := OverviewStep(o, line);
    if r.Some? && r != o {
      if !IsNullOrBlank(line.abstractText) {
        TrimIdempotent(line.abstractText.value);
      } else if line.summary.Some? {
        TrimIdempotent(line.summary.value);
      } else {
        var k :| 0 <= k < |line.resultSummaries| && !IsNullOrBlank(line.resultSummaries[k])
          && r.value == Trim(line.resultSummaries[k].value);
        TrimIdempotent(line.resultSummaries[k].value);
      }
    }
  }

  /** Reference: the trimmed text of the last non-blank abstract reply. */
  function LastAbstract(lines: seq<OverviewLine>): Option<string> {
    if |lines| == 0 then None
    else
      var line := lines[|lines| - 1];
      if line.ORecord? && !IsNullOrBlank(line.abstractText) then Some(Trim(line.abstractText.value))
      else LastAbstract(lines[..|lines| - 1])
  }

  /** Whenever the stream carries a non-blank abstract reply, the overview is
      the last one, whatever summaries came before or after it. */
  lemma {:induction false} LastAbstractWins(lines: seq<OverviewLine>)
    requires OverviewWellFormed(lines)
    requires LastAbstract(lines).Some?
    ensures ParseOverview(lines) == Success(LastAbstract(lines))
    decreases |lines|
  {
    var prefix := lines[..|lines| - 1];
    var line := lines[|lines| - 1];
    assert forall i :: 0 <= i < |prefix| ==> prefix[i] == lines[i];
    if !(line.ORecord? && !IsNullOrBlank(line.abstractText)) {
      LastAbstractWins(prefix);
    }
  }

  /** `generateOverview`: nothing (and no request) when the overview is
      disabled or no usable space id is given; an error when the exchange
      fails; otherwise the overview read from the stream, if any. */
  function GenerateOverview(
    s: ClientSettings, send: OverviewRequest -> Option<OverviewReply>,
    query: Option<string>, spaceIds: Option<seq<Option<string>>>)
    : (r: Result<Option<string>, string>)
    ensures !OverviewEnabled(s) ==> r == Success(None)
    ensures spaceIds.None? ==> r == Success(None)
    ensures spaceIds.Some? && (forall k :: 0 <= k < |spaceIds.value| ==> IsNullOrBlank(spaceIds.value[k])) ==>
      r == Success(None)
    ensures r.Success? && r.value.Some? ==> Trim(r.value.value) == r.value.value
    ensures OverviewEnabled(s) && spaceIds.Some? && |NonBlankIds(spaceIds.value)| > 0 ==>
      var reply := send(BuildOverviewRequest(s, query, NonBlankIds(spaceIds.value)));
      && (r.Success? <==> reply.Some? && reply.value.status == 200 && OverviewWellFormed(reply.value.lines))
      && (r.Success? ==> r == ParseOverview(reply.value.lines))
  {
    if !OverviewEnabled(s) || spaceIds.None? || |spaceIds.value| == 0 then Success(None)
    else
      var ids := NonBlankIds(spaceIds.value);
      if |ids| == 0 then Success(None)
      else
        match send(BuildOverviewRequest(s, query, ids))
        case None => Failure("overview request failed")
        case Some(reply) =>
          if reply.status != 200 then Failure("overview failed with status " + IntToString(reply.status))
          else ParseOverview(reply.lines)
  }

  /** An accepted exchange whose stream carries a non-blank abstract reply
      answers with the last such abstract. */
  lemma OverviewIsLastAbstract(
    s: ClientSettings, send: OverviewRequest -> Option<OverviewReply>,
    query: Option<string>, spaceIds: seq<Option<string>>, reply: OverviewReply)
    requires OverviewEnabled(s) && |NonBlankIds(spaceIds)| > 0
    requires send(BuildOverviewRequest(s, query, NonBlankIds(spaceIds))) == Some(reply)
    requires reply.status == 200 && OverviewWellFormed(reply.lines) && LastAbstract(reply.lines).Some?
    ensures GenerateOverview(s, send, query, Some(spaceIds)) == Success(LastAbstract(reply.lines))
  {
    LastAbstractWins(reply.lines);
  }

  /** The overview request lists exactly the usable space ids, in order. */
  lemma OverviewAsksUsableSpaces(s: ClientSettings, query: Option<string>, spaceIds: seq<Option<string>>)
    requires OverviewEnabled(s)
    requires exists k :: 0 <= k < |spaceIds| && !IsNullOrBlank(spaceIds[k])
    ensures var req := BuildOverviewRequest(s, query, NonBlankIds(spaceIds));
      && |req.spaceIds| > 0
      && (forall k :: 0 <= k < |req.spaceIds| ==> !IsBlank(req.spaceIds[k]) && Some(req.spaceIds[k]) in spaceIds)
      && req.requestedSize >= s.overviewMaxResults
  {
    var k :| 0 <= k < |spaceIds| && !IsNullOrBlank(spaceIds[k]);
    assert spaceIds[k].value in NonBlankIds(spaceIds);
  }

  // ---------------------------------------------------------------------------
  // Space listing

  /** One entry of the space listing: its `name` and `spaceId`, when
      present. */
  datatype ListedSpace = ListedSpace(name: Option<string>, spaceId: Option<string>)

  datatype ListReply = ListReply(status: int, spaces: seq<ListedSpace>)

  /** The names of the listing mapped to their ids; a later entry with the
      same name replaces an earlier one, and entries missing either part are
      skipped. */
  function SpaceMap(spaces: seq<ListedSpace>): (r: map<string, string>)
    ensures forall name :: name in r <==>
      exists k :: 0 <= k < |spaces| && spaces[k].name == Some(name) && spaces[k].spaceId.Some?
    decreases |spaces|
  {
    if |spaces| == 0 then map[]
    else
      var prefix := spaces[..|spaces| - 1];
      var last := spaces[|spaces| - 1];
      assert forall k :: 0 <= k < |prefix| ==> prefix[k] == spaces[k];
      var m := SpaceMap(prefix);
      if last.name.Some? && last.spaceId.Some? then m[last.name.value := last.spaceId.value] else m
  }

  /** The id kept for a name is the one of its last complete entry. */
  lemma {:induction false} SpaceMapLastWins(spaces: seq<ListedSpace>, k: nat)
    requires k < |spaces| && spaces[k].name.Some? && spaces[k].spaceId.Some?
    requires forall j :: k < j < |spaces| && spaces[j].spaceId.Some? ==> spaces[j].name != spaces[k].name
    ensures spaces[k].name.value in SpaceMap(spaces)
    ensures SpaceMap(spaces)[spaces[k].name.value] == spaces[k].spaceId.value
    decreases |spaces|
  {
    var name := spaces[k].name.value;
    var prefix := spaces[..|spaces| - 1];
    var last := spaces[|spaces| - 1];
    assert forall j :: 0 <= j < |prefix| ==> prefix[j] == spaces[j];
    var m := SpaceMap(prefix);
    if k == |spaces| - 1 {
      assert SpaceMap(spaces) == m[name := spaces[k].spaceId.value];
    } else {
      SpaceMapLastWins(prefix, k);
      assert name in m && m[name] == spaces[k].spaceId.value;
      if last.name.Some? && last.spaceId.Some? {
        assert last.name.value != name;
        assert SpaceMap(spaces) == m[last.name.value := last.spaceId.value];
      } else {
        assert SpaceMap(spaces) == m;
      }
    }
  }

  /** `listSpaces`: the name-to-id map of a successful listing. */
  function ListSpaces(reply: Option<ListReply>): (r: Result<map<string, string>, string>)
    ensures r.Success? <==> reply.Some? && reply.value.status == 200
    ensures r.Success? ==> forall name :: name in r.value <==>
      exists k :: 0 <= k < |reply.value.spaces| && reply.value.spaces[k].name == Some(name) && reply.value.spaces[k].spaceId.Some?
  {
    match reply
    case None => Failure("list spaces request failed")
    case Some(rep) =>
      if rep.status != 200 then Failure("list spaces failed with status " + IntToString(rep.status))
      else Success(SpaceMap(rep.spaces))
  }
}
