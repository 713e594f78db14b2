/** The in-memory index and the backend index are indistinguishable over whole runs. */
module Twins {
  import opened Words
  import opened Banding
  import opened IndexSpec
  import opened LshIndexing
  import opened Backend

  datatype Call =
    | InsertMany(items: seq<Item>)
    | Remove(key: nat)
    | QueryMany(sketches: seq<Sketch>)

  datatype Reply =
    | Inserted(ok: bool)
    | Gone(existed: bool)
    | Found(answers: Result<seq<seq<nat>>, LshError>)

  method CallIndex(index: LshIndex, call: Call) returns (reply: Reply)
    requires index.Valid()
    modifies index.data
    ensures index.Valid()
    ensures HasRoom(old(index.Contents()), old(index.IdsUsed()), index.config, call) ==>
              index.IdsUsed() == old(index.IdsUsed()) + Gain(old(index.Contents()), index.config, call)
    ensures reply == ReplyTo(old(index.Contents()), index.config, call) <==>
            HasRoom(old(index.Contents()), old(index.IdsUsed()), index.config, call)
    ensures HasRoom(old(index.Contents()), old(index.IdsUsed()), index.config, call) ==>
              index.Contents() == After(old(index.Contents()), index.config, call)
    ensures !HasRoom(old(index.Contents()), old(index.IdsUsed()), index.config, call) ==>
              reply == Inserted(false) && index.Contents() == old(index.Contents())
  {
    match call
    case InsertMany(items) =>
      var r := index.InsertMany(items);
      reply := Inserted(r.Ok?);
    case Remove(key) =>
      var existed := index.Remove(key);
      reply := Gone(existed);
    case QueryMany(sketches) =>
      var answers := index.QueryMany(sketches);
      reply := Found(answers);
  }

  method CallBackend(index: BackendIndex, call: Call) returns (reply: Reply)
    requires index.Valid()
    modifies index, index.backend
    ensures index.Valid()
    ensures reply == ReplyTo(old(index.Contents()), index.config, call)
    ensures index.Contents() == After(old(index.Contents()), index.config, call)
  {
    match call
    case InsertMany(items) =>
      var r := index.InsertMany(items);
      reply := Inserted(r.Ok?);
    case Remove(key) =>
      var existed := index.Remove(key);
      reply := Gone(existed);
    case QueryMany(sketches) =>
      var answers := index.QueryMany(sketches);
      reply := Found(answers);
  }

  /** The only limit the backend does not share: an admissible batch must fit the remaining internal ids. */
  ghost predicate HasRoom(contents: Contents, used: nat, config: Config, call: Call) {
    call.InsertMany? && Admissible(contents.Keys, config, call.items) ==> used + |call.items| <= U32_MAX
  }

  /** What an unbounded index replies, and holds afterwards. */
  ghost function ReplyTo(contents: Contents, config: Config, call: Call): Reply
    requires config.Valid()
  {
    match call
    case InsertMany(items) => Inserted(Admissible(contents.Keys, config, items))
    case Remove(key) => Gone(key in contents)
    case QueryMany(sketches) => Found(Answers(contents, config, sketches))
  }

  ghost function After(contents: Contents, config: Config, call: Call): Contents
    requires config.Valid()
  {
    match call
    case InsertMany(items) =>
      if Admissible(contents.Keys, config, items) then Added(contents, config, items) else contents
    case Remove(key) => contents - {key}
    case QueryMany(_) => contents
  }

  /** How many items an unbounded index takes in with one call. */
  ghost function Gain(contents: Contents, config: Config, call: Call): nat {
    if call.InsertMany? && Admissible(contents.Keys, config, call.items) then |call.items| else 0
  }

  /** What an unbounded index holds after a run. */
  ghost function Finally(contents: Contents, config: Config, calls: seq<Call>): Contents
    requires config.Valid()
  {
    if calls == [] then contents
    else After(Finally(contents, config, calls[..|calls| - 1]), config, calls[|calls| - 1])
  }

  /** All its replies, in order. */
  ghost function Replies(contents: Contents, config: Config, calls: seq<Call>): (replies: seq<Reply>)
    requires config.Valid()
    ensures |replies| == |calls|
  {
    if calls == [] then []
    else
      var earlier := calls[..|calls| - 1];
      Replies(contents, config, earlier) + [ReplyTo(Finally(contents, config, earlier), config, calls[|calls| - 1])]
  }

  /** How many insertions it accepts. */
  ghost function Accepted(contents: Contents, config: Config, calls: seq<Call>): nat
    requires config.Valid()
  {
    if calls == [] then 0
    else
      var earlier := calls[..|calls| - 1];
      Accepted(contents, config, earlier) + Gain(Finally(contents, config, earlier), config, calls[|calls| - 1])
  }

  lemma {:induction false} RunAppend(config: Config, calls: seq<Call>, call: Call)
    requires config.Valid()
    ensures
      var before := Finally(map[], config, calls);
      && Finally(map[], config, calls + [call]) == After(before, config, call)
      && Replies(map[], config, calls + [call]) == Replies(map[], config, calls) + [ReplyTo(before, config, call)]
      && Accepted(map[], config, calls + [call]) == Accepted(map[], config, calls) + Gain(before, config, call)
  {
    assert (calls + [call])[..|calls|] == calls;
  }

  /** How replies and contents stand after the first `i` calls. */
  ghost predicate Matched(config: Config, calls: seq<Call>, i: nat, memory: seq<Reply>, stored: seq<Reply>,
                          indexed: Contents, idsUsed: nat, backed: Contents)
    requires config.Valid() && i <= |calls|
  {
    && |memory| == |stored| == i
    && stored == Replies(map[], config, calls[..i]) && backed == Finally(map[], config, calls[..i])
    && (memory == stored <==> Accepted(map[], config, calls[..i]) <= U32_MAX)
    && (memory == stored ==> indexed == backed && idsUsed == Accepted(map[], config, calls[..i]))
  }

  /** One call on both. */
  method TwinStep(index: LshIndex, backend: BackendIndex, calls: seq<Call>, i: nat, memory: seq<Reply>,
                  stored: seq<Reply>)
    returns (memory': seq<Reply>, stored': seq<Reply>)
    requires index.Valid() && backend.Valid() && index.config == backend.config && i < |calls|
    requires Matched(index.config, calls, i, memory, stored, index.Contents(), index.IdsUsed(), backend.Contents())
    modifies index.data, backend, backend.backend
    ensures index.Valid() && backend.Valid()
    ensures Matched(index.config, calls, i + 1, memory', stored', index.Contents(), index.IdsUsed(), backend.Contents())
  {
    RunAppend(index.config, calls[..i], calls[i]);
    assert calls[..i] + [calls[i]] == calls[..i + 1];
    var left := CallIndex(index, calls[i]);
    var right := CallBackend(backend, calls[i]);
    SameAppend(memory, left, stored, right);
    memory', stored' := memory + [left], stored + [right];
  }

  /**
   * Run one sequence of calls on both implementations. The backend always replies like an unbounded index, and the
   * in-memory index does so exactly while no more than 2^32 - 1 insertions have been accepted.
   */
  method RunTwins(config: Config, calls: seq<Call>)
    returns (index: LshIndex, backend: BackendIndex, memory: seq<Reply>, stored: seq<Reply>)
    requires config.Valid()
    ensures index.Valid() && backend.Valid()
    ensures stored == Replies(map[], config, calls) && backend.Contents() == Finally(map[], config, calls)
    ensures memory == stored <==> Accepted(map[], config, calls) <= U32_MAX
    ensures memory == stored ==> index.Contents() == backend.Contents()
  {
    index := new LshIndex(config);
    backend := new BackendIndex(config);
    memory, stored := [], [];
    assert calls[..0] == [];
    var i := 0;
    while i < |calls|
      invariant 0 <= i <= |calls|
      invariant fresh(index.data) && fresh(backend) && fresh(backend.backend)
      invariant index.Valid() && backend.Valid() && index.config == backend.config == config
      invariant Matched(config, calls, i, memory, stored, index.Contents(), index.IdsUsed(), backend.Contents())
    {
      memory, stored := TwinStep(index, backend, calls, i, memory, stored);
      i := i + 1;
    }
    assert calls[..i] == calls;
  }

  lemma SameAppend(memory: seq<Reply>, left: Reply, stored: seq<Reply>, right: Reply)
    requires |memory| == |stored|
    ensures memory + [left] == stored + [right] <==> memory == stored && left == right
  {
    if memory + [left] == stored + [right] {
      assert memory == (memory + [left])[..|memory|] && stored == (stored + [right])[..|stored|];
      assert left == (memory + [left])[|memory|] && right == (stored + [right])[|stored|];
    }
  }

  /** One key inserted and removed `n` times. */
  function Spend(key: nat, sketch: Sketch, n: nat): seq<Call> {
    if n == 0 then [] else Spend(key, sketch, n - 1) + [InsertMany([(key, sketch)])] + [Remove(key)]
  }

  lemma {:induction false} OneItem(config: Config, key: nat, sketch: Sketch)
    requires config.Valid() && Incompatibility(config, sketch).None?
    ensures Admissible({}, config, [(key, sketch)])
    ensures Added(map[], config, [(key, sketch)]) == map[key := BandHashes(config, sketch)]
  {
    assert [(key, sketch)][..0] == [];
  }

  lemma {:induction false} OneRound(config: Config, earlier: seq<Call>, key: nat, sketch: Sketch)
    requires config.Valid() && Incompatibility(config, sketch).None? && Finally(map[], config, earlier) == map[]
    ensures
      var calls := earlier + [InsertMany([(key, sketch)])] + [Remove(key)];
      && Finally(map[], config, calls) == map[]
      && Accepted(map[], config, calls) == Accepted(map[], config, earlier) + 1
  {
    var insert := InsertMany([(key, sketch)]);
    OneItem(config, key, sketch);
    RunAppend(config, earlier, insert);
    RunAppend(config, earlier + [insert], Remove(key));
  }

  /** Each round is accepted and leaves nothing behind but the spent id. */
  lemma {:induction false} SpendAccepted(config: Config, key: nat, sketch: Sketch, n: nat)
    requires config.Valid() && Incompatibility(config, sketch).None?
    ensures Finally(map[], config, Spend(key, sketch, n)) == map[]
    ensures Accepted(map[], config, Spend(key, sketch, n)) == n
    decreases n
  {
    if n > 0 {
      SpendAccepted(config, key, sketch, n - 1);
      OneRound(config, Spend(key, sketch, n - 1), key, sketch);
    }
  }

  /**
   * After 2^32 - 1 such rounds an unbounded index is empty and accepts one insertion more, but the run is then beyond
   * the bound at which `RunTwins` tells the two implementations apart.
   */
  lemma {:induction false} TwinsPart(config: Config, key: nat, sketch: Sketch)
    requires config.Valid() && Incompatibility(config, sketch).None?
    ensures
      var rounds, insert := Spend(key, sketch, U32_MAX), InsertMany([(key, sketch)]);
      && Finally(map[], config, rounds) == map[] && Accepted(map[], config, rounds) == U32_MAX
      && Replies(map[], config, rounds + [insert]) == Replies(map[], config, rounds) + [Inserted(true)]
      && Accepted(map[], config, rounds + [insert]) > U32_MAX
  {
    SpendAccepted(config, key, sketch, U32_MAX);
    OneItem(config, key, sketch);
    RunAppend(config, Spend(key, sketch, U32_MAX), InsertMany([(key, sketch)]));
  }
}
