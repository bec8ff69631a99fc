/**
 * The Pregel message queues (js/server/modules/org/arangodb/pregel/messagequeue.js):
 * each vertex has an incoming queue read through a cursor, and the worker
 * keeps an outbox that maps a shard and a vertex id to the plain messages
 * sent to that vertex or to their aggregate.
 */
module PregelMessageQueue {
  import opened Common
  import opened JsValues

  /**
   * `ERROR_PREGEL_NO_TARGET_PROVIDED`, and the TypeError `_send` raises when
   * it reads `target.shard` of a resolved location that is `null` or `undefined`.
   */
  datatype PregelError = NoTargetProvided | LocationTypeError

  /** A vertex as the constructor's vertex cursor yields it: its `_id` and its location info. */
  datatype Vertex = Vertex(id: string, locationInfo: JsValue)

  /**
   * One vertex's entry in the outbox, `out[shard][id]`: the list `plain`,
   * created on the first plain message, and the aggregate `a`, set by the
   * first aggregated message.
   */
  datatype Container = Container(plain: Option<seq<JsValue>>, a: Option<JsValue>)

  const EmptyContainer := Container(None, None)

  type Outbox = map<string, map<string, Container>>

  /** The message object `sendTo` builds: `{data: data}`, plus `sender` when requested. */
  function MakeMessage(data: JsValue, sender: Option<JsValue>): (m: JsValue)
    ensures m.Obj? && Get(m, "data") == data
    ensures HasOwn(m, "sender") <==> sender.Some?
    ensures sender.Some? ==> Get(m, "sender") == sender.value
  {
    match sender
    case None => Obj(map["data" := data])
    case Some(s) => Obj(map["data" := data, "sender" := s])
  }

  /** The messages `_fill` appends to a queue for one incoming container, as the source reads it. */
  function FillItemsAsWritten(msg: JsValue): seq<JsValue> {
    (if Truthy(Get(msg, "a")) then [Singleton("data", Get(msg, "a"))] else [])
    + PlainItems(msg)
  }

  /**
   * The messages `_fill` appends for one incoming container, with an
   * aggregate taken whenever the container has one (see the finding in the
   * README): `{data: a}` first, then the elements of `plain` in order.
   */
  function FillItems(msg: JsValue): seq<JsValue> {
    (if HasOwn(msg, "a") then [Singleton("data", Get(msg, "a"))] else [])
    + PlainItems(msg)
  }

  /** `concat(msg.plain)` when `msg.plain` is truthy: an array contributes its elements, anything else itself. */
  function PlainItems(msg: JsValue): (r: seq<JsValue>)
    ensures Get(msg, "plain").Arr? ==> r == Get(msg, "plain").elems
    ensures !Truthy(Get(msg, "plain")) ==> r == []
    ensures Truthy(Get(msg, "plain")) && !Get(msg, "plain").Arr? ==> r == [Get(msg, "plain")]
  {
    var plain := Get(msg, "plain");
    if !Truthy(plain) then []
    else if plain.Arr? then plain.elems
    else [plain]
  }

  /** The JavaScript object an outbox container is stored and later read back as. */
  function ContainerObject(c: Container): (v: JsValue)
    ensures v.Obj?
    ensures HasOwn(v, "a") <==> c.a.Some?
    ensures c.a.Some? ==> Get(v, "a") == c.a.value
    ensures c.plain.Some? ==> Get(v, "plain") == Arr(c.plain.value, map[])
    ensures c.plain.None? ==> !HasOwn(v, "plain")
  {
    var withPlain := if c.plain.Some? then map["plain" := Arr(c.plain.value, map[])] else map[];
    Obj(if c.a.Some? then withPlain["a" := c.a.value] else withPlain)
  }

  /** The outbox after `_send` delivers `msg` to vertex `id` on `shard`. */
  function Deliver(out: Outbox, shard: string, id: string, msg: JsValue,
                   aggregate: Option<(JsValue, JsValue) -> JsValue>): Outbox
  {
    var byId := if shard in out then out[shard] else map[];
    var c := if id in byId then byId[id] else EmptyContainer;
    var c' :=
      if HasOwn(msg, "sender") || aggregate.None? then
        c.(plain := Some((if c.plain.Some? then c.plain.value else []) + [msg]))
      else
        c.(a := Some(if c.a.Some? then aggregate.value(Get(msg, "data"), c.a.value) else Get(msg, "data")));
    out[shard := byId[id := c']]
  }

  /** The container of vertex `id` on `shard`, empty when nothing was sent there yet. */
  function ContainerAt(out: Outbox, shard: string, id: string): Container {
    if shard in out && id in out[shard] then out[shard][id] else EmptyContainer
  }

  /** Delivering to one vertex leaves every other shard / vertex container unchanged. */
  lemma DeliverTouchesOneContainer(out: Outbox, shard: string, id: string, msg: JsValue,
                                   aggregate: Option<(JsValue, JsValue) -> JsValue>, s: string, i: string)
    requires s != shard || i != id
    ensures ContainerAt(Deliver(out, shard, id, msg, aggregate), s, i) == ContainerAt(out, s, i)
    ensures shard in Deliver(out, shard, id, msg, aggregate)
    ensures s in out ==> s in Deliver(out, shard, id, msg, aggregate)
  {
  }

  /** Delivering a sequence of messages to one vertex, in order. */
  function DeliverAll(out: Outbox, shard: string, id: string, msgs: seq<JsValue>,
                      aggregate: Option<(JsValue, JsValue) -> JsValue>): Outbox
    decreases |msgs|
  {
    if msgs == [] then out
    else Deliver(DeliverAll(out, shard, id, msgs[..|msgs| - 1], aggregate), shard, id, msgs[|msgs| - 1], aggregate)
  }

  /** The aggregate of the data of a non-empty sequence of messages: the first, then `aggregate(data, a)` for each later one. */
  function Aggregated(aggregate: (JsValue, JsValue) -> JsValue, msgs: seq<JsValue>): JsValue
    requires msgs != []
    decreases |msgs|
  {
    if |msgs| == 1 then Get(msgs[0], "data")
    else aggregate(Get(msgs[|msgs| - 1], "data"), Aggregated(aggregate, msgs[..|msgs| - 1]))
  }

  /**
   * Without an aggregate function, or for messages that carry a sender,
   * the messages sent to a fresh vertex container end up in `plain` in the
   * order they were sent, and no aggregate is recorded.
   */
  lemma {:induction false} PlainMessagesKeepOrder(out: Outbox, shard: string, id: string, msgs: seq<JsValue>,
                                                  aggregate: Option<(JsValue, JsValue) -> JsValue>)
    requires ContainerAt(out, shard, id) == EmptyContainer
    requires msgs != []
    requires forall k :: 0 <= k < |msgs| ==> HasOwn(msgs[k], "sender") || aggregate.None?
    ensures ContainerAt(DeliverAll(out, shard, id, msgs, aggregate), shard, id) == Container(Some(msgs), None)
    decreases |msgs|
  {
    var init := msgs[..|msgs| - 1];
    var last := msgs[|msgs| - 1];
    var before := DeliverAll(out, shard, id, init, aggregate);
    assert DeliverAll(out, shard, id, msgs, aggregate) == Deliver(before, shard, id, last, aggregate);
    DeliverPlainStep(before, shard, id, last, aggregate);
    if init != [] {
      PlainMessagesKeepOrder(out, shard, id, init, aggregate);
    }
    InitLast(msgs);
  }

  /** One plain delivery appends the message to `plain` and leaves the aggregate alone. */
  lemma DeliverPlainStep(out: Outbox, shard: string, id: string, msg: JsValue,
                         aggregate: Option<(JsValue, JsValue) -> JsValue>)
    requires HasOwn(msg, "sender") || aggregate.None?
    ensures var c := ContainerAt(out, shard, id);
            ContainerAt(Deliver(out, shard, id, msg, aggregate), shard, id)
              == c.(plain := Some((if c.plain.Some? then c.plain.value else []) + [msg]))
  {
  }

  /**
   * With an aggregate function, messages without a sender sent to a fresh
   * vertex container keep a single value: the data of the first message,
   * then `aggregate(data, a)` for each later one; `plain` is never created.
   */
  lemma {:induction false} AggregatedMessagesFold(out: Outbox, shard: string, id: string, msgs: seq<JsValue>,
                                                  aggregate: (JsValue, JsValue) -> JsValue)
    requires ContainerAt(out, shard, id) == EmptyContainer
    requires msgs != []
    requires forall k :: 0 <= k < |msgs| ==> !HasOwn(msgs[k], "sender")
    ensures ContainerAt(DeliverAll(out, shard, id, msgs, Some(aggregate)), shard, id)
              == Container(None, Some(Aggregated(aggregate, msgs)))
    decreases |msgs|
  {
    if |msgs| > 1 {
      AggregatedMessagesFold(out, shard, id, msgs[..|msgs| - 1], aggregate);
    }
  }

  /** The `/\S+\/\S+/` test of `sendTo`: some `/` has a non-whitespace character right before and right after it. */
  predicate IsVertexIdString(s: string) {
    exists i :: 1 <= i < |s| - 1 && s[i] == '/' && !IsJsWhitespace(s[i - 1]) && !IsJsWhitespace(s[i + 1])
  }

  /** The characters JavaScript's `\s` matches. */
  predicate IsJsWhitespace(c: char) {
    c == ' ' || c == '\t' || c == '\n' || c == '\U{B}' || c == '\U{C}' || c == '\r'
    || c == '\U{A0}' || c == '\U{1680}' || ('\U{2000}' <= c <= '\U{200A}')
    || c == '\U{2028}' || c == '\U{2029}' || c == '\U{202F}' || c == '\U{205F}'
    || c == '\U{3000}' || c == '\U{FEFF}'
  }

  /** The per-vertex incoming queue, `VertexMessageQueue`. */
  class VertexMessageQueue {
    const parent: Queue
    const vertexInfo: JsValue
    var inc: seq<JsValue>
    var pos: nat

    constructor (parent: Queue, vertexInfo: JsValue)
      ensures this.parent == parent && this.vertexInfo == vertexInfo
      ensures inc == [] && pos == 0
    {
      this.parent := parent;
      this.vertexInfo := vertexInfo;
      inc := [];
      pos := 0;
    }

    /** `count()`: the number of messages in the queue, read or not. */
    function Count(): (n: nat)
      reads this
      ensures n == |inc|
    {
      |inc|
    }

    /** `hasNext()`: whether the cursor has not yet passed the last message. */
    function HasNext(): (b: bool)
      reads this
      ensures b <==> pos < |inc|
    {
      pos < Count()
    }

    /** `next()`: the message under the cursor, advancing it by one; `null` and no move once exhausted. */
    method Next() returns (m: JsValue)
      modifies this`pos
      ensures old(pos) < |inc| ==> m == inc[old(pos)] && pos == old(pos) + 1
      ensures old(pos) >= |inc| ==> m == Null && pos == old(pos)
    {
      if !HasNext() {
        return Null;
      }
      m := inc[pos];
      pos := pos + 1;
    }

    /** `_fill(msg)`: append the contents of one incoming container; earlier messages and the cursor stay. */
    method Fill(msg: JsValue)
      modifies this`inc
      ensures inc == old(inc) + FillItems(msg)
      ensures inc[..|old(inc)|] == old(inc)
    {
      if HasOwn(msg, "a") {
        inc := inc + [Singleton("data", Get(msg, "a"))];
      }
      var plain := Get(msg, "plain");
      if Truthy(plain) {
        inc := inc + (if plain.Arr? then plain.elems else [plain]);
      }
    }

    /** `_clear()`: an empty queue with the cursor at the start. */
    method Clear()
      modifies this`inc, this`pos
      ensures inc == [] && pos == 0
    {
      inc := [];
      pos := 0;
    }

    /**
     * `sendTo(target, data, sendLocation)`. A string target that looks like a
     * vertex id is resolved by `getLocationObject`, standing for
     * `pregel.getLocationObject`; the source passes it `this.__executionNumber`,
     * which a vertex queue never sets, so it receives `undefined`. Any other
     * target must be an object with a truthy `_id` and `shard`. The sender's
     * location is attached unless `sendLocation` is `false`. A resolved
     * location that is `null` or `undefined` makes `_send` throw when it reads
     * `target.shard`, before the output is touched.
     */
    method SendTo(target: JsValue, data: JsValue, sendLocation: JsValue,
                  getLocationObject: (JsValue, string) -> JsValue)
      returns (r: Result<(), PregelError>)
      modifies parent`output
      ensures var resolved := Truthy(target) && target.Str? && IsVertexIdString(target.s);
              var located := Truthy(target) && TypeOf(target) == "object"
                             && Truthy(Get(target, "_id")) && Truthy(Get(target, "shard"));
              var t := if resolved then getLocationObject(Undefined, target.s) else target;
              && (r == Err(NoTargetProvided) <==> !resolved && !located)
              && (r == Err(LocationTypeError) <==> resolved && (t.Null? || t.Undefined?))
              && (r.Err? ==> parent.output == old(parent.output))
              && (r.Ok? ==>
                    var msg := MakeMessage(data, if sendLocation != Bool(false) then Some(vertexInfo) else None);
                    parent.output == Deliver(old(parent.output), ToKey(Get(t, "shard")), ToKey(Get(t, "_id")),
                                             msg, parent.aggregate))
    {
      var t := target;
      if Truthy(t) && t.Str? && IsVertexIdString(t.s) {
        t := getLocationObject(Undefined, t.s);
        if t.Null? || t.Undefined? {
          return Err(LocationTypeError);
        }
      } else if !(Truthy(t) && TypeOf(t) == "object" && Truthy(Get(t, "_id")) && Truthy(Get(t, "shard"))) {
        return Err(NoTargetProvided);
      }
      var toSend := MakeMessage(data, if sendLocation != Bool(false) then Some(vertexInfo) else None);
      parent.Send(t, toSend);
      return Ok(());
    }
  }

  /** The location info of the last vertex in `vs` with id `id`; `undefined` when there is none. */
  function LastLocation(vs: seq<Vertex>, id: string): JsValue
    decreases |vs|
  {
    if vs == [] then Undefined
    else if vs[|vs| - 1].id == id then vs[|vs| - 1].locationInfo
    else LastLocation(vs[..|vs| - 1], id)
  }

  /** The ids of the vertices in `vs`. */
  function VertexIds(vs: seq<Vertex>): set<string> {
    set k | 0 <= k < |vs| :: vs[k].id
  }

  /** Taking one more vertex: its id joins the ids, and it is the last vertex with that id. */
  lemma VertexStep(vs: seq<Vertex>, k: nat)
    requires k < |vs|
    ensures VertexIds(vs[..k + 1]) == VertexIds(vs[..k]) + {vs[k].id}
    ensures LastLocation(vs[..k + 1], vs[k].id) == vs[k].locationInfo
    ensures forall id :: id != vs[k].id ==> LastLocation(vs[..k + 1], id) == LastLocation(vs[..k], id)
  {
    assert vs[..k + 1][..k] == vs[..k];
    forall id | id in VertexIds(vs[..k + 1]) ensures id in VertexIds(vs[..k]) + {vs[k].id} {
      var j :| 0 <= j < k + 1 && vs[..k + 1][j].id == id;
      if j < k {
        assert vs[..k][j].id == id;
      }
    }
    forall id | id in VertexIds(vs[..k]) ensures id in VertexIds(vs[..k + 1]) {
      var j :| 0 <= j < k && vs[..k][j].id == id;
      assert vs[..k + 1][j].id == id;
    }
  }

  /** The location of the last vertex with an id is that of a vertex with the id that no later vertex shares. */
  lemma {:induction false} LastLocationIsLast(vs: seq<Vertex>, k: nat)
    requires k < |vs| && forall j :: k < j < |vs| ==> vs[j].id != vs[k].id
    ensures LastLocation(vs, vs[k].id) == vs[k].locationInfo
    decreases |vs|
  {
    if k < |vs| - 1 {
      var init := vs[..|vs| - 1];
      assert init[k] == vs[k];
      LastLocationIsLast(init, k);
    }
  }

  /** The worker's message queue, `Queue`: one vertex queue per vertex, and the outbox. */
  class Queue {
    const executionNumber: JsValue
    const aggregate: Option<(JsValue, JsValue) -> JsValue>
    var queues: seq<string>
    var vertexQueues: map<string, VertexMessageQueue>
    var output: Outbox
    var step: nat

    /**
     * The constructor walks the vertex cursor once: every vertex id is
     * recorded in `queues` in iteration order and gets a fresh, empty
     * vertex queue (a repeated id keeps the last one).
     */
    constructor (executionNumber: JsValue, vertices: seq<Vertex>, aggregate: Option<(JsValue, JsValue) -> JsValue>)
      ensures this.executionNumber == executionNumber && this.aggregate == aggregate
      ensures |queues| == |vertices| && forall k :: 0 <= k < |vertices| ==> queues[k] == vertices[k].id
      ensures vertexQueues.Keys == VertexIds(vertices)
      ensures forall id :: id in vertexQueues ==>
                fresh(vertexQueues[id]) && vertexQueues[id].parent == this
                && vertexQueues[id].inc == [] && vertexQueues[id].pos == 0
                && vertexQueues[id].vertexInfo == LastLocation(vertices, id)
      ensures output == map[] && step == 0
    {
      this.executionNumber := executionNumber;
      this.aggregate := aggregate;
      queues := [];
      vertexQueues := map[];
      output := map[];
      step := 0;
      new;
      var qs: seq<string> := [];
      var vqs: map<string, VertexMessageQueue> := map[];
      for k := 0 to |vertices|
        invariant |qs| == k && forall k' :: 0 <= k' < k ==> qs[k'] == vertices[k'].id
        invariant vqs.Keys == VertexIds(vertices[..k])
        invariant forall id :: id in vqs ==>
                    fresh(vqs[id]) && vqs[id].parent == this && vqs[id].inc == [] && vqs[id].pos == 0
                    && vqs[id].vertexInfo == LastLocation(vertices[..k], id)
        invariant output == map[] && step == 0
      {
        var v := vertices[k];
        VertexStep(vertices, k);
        qs := qs + [v.id];
        var q := new VertexMessageQueue(this, v.locationInfo);
        vqs := vqs[v.id := q];
      }
      assert vertices[..|vertices|] == vertices;
      queues := qs;
      vertexQueues := vqs;
    }

    /** `_send(target, msg)`: deliver `msg` into the outbox container of `target.shard` / `target._id`. */
    method Send(target: JsValue, msg: JsValue)
      modifies this`output
      ensures output == Deliver(old(output), ToKey(Get(target, "shard")), ToKey(Get(target, "_id")), msg, aggregate)
    {
      var shard := ToKey(Get(target, "shard"));
      var id := ToKey(Get(target, "_id"));
      var out := output;
      var byShard := if shard in out then out[shard] else map[];
      var msgContainer := if id in byShard then byShard[id] else EmptyContainer;
      if HasOwn(msg, "sender") || aggregate.None? {
        var plain := if msgContainer.plain.Some? then msgContainer.plain.value else [];
        msgContainer := msgContainer.(plain := Some(plain + [msg]));
      } else {
        if msgContainer.a.Some? {
          msgContainer := msgContainer.(a := Some(aggregate.value(Get(msg, "data"), msgContainer.a.value)));
        } else {
          msgContainer := msgContainer.(a := Some(Get(msg, "data")));
        }
      }
      output := out[shard := byShard[id := msgContainer]];
    }
  }

  /**
   * A container read back by `_fill` yields its aggregate first and then its
   * plain messages, whatever the aggregate's value.
   */
  lemma FillReadsContainer(c: Container)
    ensures FillItems(ContainerObject(c))
              == (if c.a.Some? then [Singleton("data", c.a.value)] else [])
                 + (if c.plain.Some? then c.plain.value else [])
  {
  }

  /** As written, `_fill` loses an aggregate whose value is falsy, such as the number 0. */
  lemma FillAsWrittenDropsFalsyAggregate()
    ensures var c := Container(None, Some(Num(0)));
            FillItemsAsWritten(ContainerObject(c)) == [] && FillItems(ContainerObject(c)) == [Singleton("data", Num(0))]
  {
  }
}
