/**
 * The per-node message handler of the asyncio variant,
 * src/network/DistributedNode.py.
 *
 * A node holds its fragment id, a "fragment changed" flag and an unused MOE
 * slot. Each delivered message (a type tag, the sender's id and an optional
 * fragment id) updates that state and sends messages to neighbours. Sending
 * is modelled as appending to the node's `outbox`; the socket work, whose
 * errors the source swallows, is not modelled.
 *
 * A handler can fail: a message without a fragment id where the handler reads
 * one, or a reply to a sender that is not a neighbour (the neighbour lookup in
 * `send_message` happens outside its error handling). The connection handler
 * catches the failure; whatever the handler changed or sent before it stays.
 *
 * `Receive` is the handler as a pure transition; `DistributedNode.HandleMessage`
 * is proved to perform exactly that transition on the object.
 */
module Network {
  import opened Wrappers

  /** Python's `min` on two integers. */
  function Min(a: int, b: int): int { if a <= b then a else b }

  // ---------------------------------------------------------------------------
  // Messages
  // ---------------------------------------------------------------------------

  /** The type tags the handler dispatches on. */
  const MoeRequest: string := "MOE_REQUEST"
  const MoeResponse: string := "MOE_RESPONSE"
  const MergeRequest: string := "MERGE_REQUEST"
  const MergeConfirmation: string := "MERGE_CONFIRMATION"
  const FragmentUpdate: string := "FRAGMENT_UPDATE"

  /**
   * The tags of the source's MESSAGE_TYPES table, used by `find_moe` and by
   * the per-node `check_termination`: lower case, unlike the handler's.
   */
  const MoeRequestTag: string := "moe_request"
  const CheckTerminationTag: string := "check_termination"

  /** A message: its type, its sender and its fragment id when it has one. */
  datatype Message = Message(kind: string, sender: int, fragmentId: Option<int>)

  /** A message sent to the neighbour `to`. */
  datatype Send = Send(to: int, message: Message)

  /** Every element of `xs` occurs once. */
  predicate Distinct(xs: seq<int>)
  {
    forall i, j :: 0 <= i < j < |xs| ==> xs[i] != xs[j]
  }

  /** `m` sent to every neighbour, in the order of the neighbour list. */
  function Broadcast(neighbors: seq<int>, m: Message): (r: seq<Send>)
    ensures |r| == |neighbors|
    ensures forall k :: 0 <= k < |r| ==> r[k] == Send(neighbors[k], m)
  {
    if neighbors == [] then []
    else Broadcast(neighbors[..|neighbors| - 1], m) + [Send(neighbors[|neighbors| - 1], m)]
  }

  /** With distinct neighbours, each neighbour receives exactly one copy. */
  lemma BroadcastOncePerNeighbor(neighbors: seq<int>, m: Message, n: int)
    requires Distinct(neighbors)
    ensures n in neighbors ==> exists k :: 0 <= k < |neighbors| && Broadcast(neighbors, m)[k] == Send(n, m)
    ensures forall k, j ::
      (0 <= k < |neighbors| && 0 <= j < |neighbors| &&
       Broadcast(neighbors, m)[k].to == n && Broadcast(neighbors, m)[j].to == n) ==> k == j
    ensures forall s :: s in Broadcast(neighbors, m) ==> s.to in neighbors && s.message == m
  {
    var r := Broadcast(neighbors, m);
    if n in neighbors {
      var k :| 0 <= k < |neighbors| && neighbors[k] == n;
      assert r[k] == Send(n, m);
    }
  }

  // ---------------------------------------------------------------------------
  // The handler as a transition
  // ---------------------------------------------------------------------------

  /** The part of a node the handler reads. */
  datatype Local = Local(nodeId: int, neighbors: seq<int>, fragmentId: int, changed: bool)

  /**
   * The outcome of handling one message: the new fragment id and flag, what
   * was sent, in order, and whether the handler ran to its end.
   */
  datatype Step = Step(fragmentId: int, changed: bool, sent: seq<Send>, ok: bool)

  /**
   * `send_message` to `to` after `r`: appended, or a failure if `to` is no
   * neighbour. Sending never changes the fragment id or the flag.
   */
  function Reply(s: Local, r: Step, to: int, m: Message): (q: Step)
    ensures q.fragmentId == r.fragmentId && q.changed == r.changed
    ensures q.ok == (r.ok && to in s.neighbors)
    ensures forall k :: 0 <= k < |q.sent| && k != |r.sent| ==> k < |r.sent| && q.sent[k] == r.sent[k]
  {
    if to in s.neighbors then r.(sent := r.sent + [Send(to, m)]) else r.(ok := false)
  }

  /** Taking fragment id `f`: the flag is set and the change flooded to every neighbour. */
  function Adopt(s: Local, f: int): (r: Step)
    ensures r.fragmentId == f && r.changed && r.ok
    ensures |r.sent| == |s.neighbors|
    ensures forall k :: 0 <= k < |r.sent| ==> r.sent[k].to == s.neighbors[k] && r.sent[k].message.fragmentId == Some(f)
  {
    Step(f, true, Broadcast(s.neighbors, Message(FragmentUpdate, s.nodeId, Some(f))), true)
  }

  /** `handle_message`: the effect of delivering `m` to a node in state `s`. */
  function Receive(s: Local, m: Message): (r: Step)
    ensures forall k :: 0 <= k < |r.sent| ==> r.sent[k].to in s.neighbors
  {
    var stay := Step(s.fragmentId, s.changed, [], true);
    if m.kind == MoeRequest then
      Reply(s, stay, m.sender, Message(MoeResponse, s.nodeId, Some(s.fragmentId)))
    else if m.kind !in {MoeResponse, MergeRequest, MergeConfirmation, FragmentUpdate} then
      stay
    else if m.fragmentId.None? then
      stay.(ok := false)
    else
      var v := m.fragmentId.value;
      if m.kind == MoeResponse then
        if v != s.fragmentId then Reply(s, stay, m.sender, Message(MergeRequest, s.nodeId, None)) else stay
      else
        var next :=
          if v == s.fragmentId then stay
          else Adopt(s, if m.kind == FragmentUpdate then v else Min(s.fragmentId, m.sender));
        if m.kind == MergeRequest then Reply(s, next, m.sender, Message(MergeConfirmation, s.nodeId, None))
        else next
  }

  /** The state a node is in after the step `r`. */
  function After(s: Local, r: Step): Local
  {
    s.(fragmentId := r.fragmentId, changed := r.changed)
  }

  /**
   * MOE_REQUEST: exactly one MOE_RESPONSE with the current fragment id goes
   * back to the sender, and the state is untouched; a sender that is not a
   * neighbour makes the handler fail without sending.
   */
  lemma MoeRequestAnswers(s: Local, m: Message)
    requires m.kind == MoeRequest
    ensures After(s, Receive(s, m)) == s
    ensures Receive(s, m).ok <==> m.sender in s.neighbors
    ensures Receive(s, m).sent ==
      if m.sender in s.neighbors then [Send(m.sender, Message(MoeResponse, s.nodeId, Some(s.fragmentId)))] else []
  {
  }

  /**
   * MOE_RESPONSE never changes the state. With a fragment id it sends one
   * MERGE_REQUEST, without a fragment id, to the sender exactly when the
   * reported id differs from the node's own.
   */
  lemma MoeResponseRequestsMerge(s: Local, m: Message)
    requires m.kind == MoeResponse
    ensures After(s, Receive(s, m)) == s
    ensures m.fragmentId.None? ==> !Receive(s, m).ok && Receive(s, m).sent == []
    ensures m.fragmentId.Some? && m.sender in s.neighbors ==>
      Receive(s, m).ok &&
      (Receive(s, m).sent != [] <==> m.fragmentId.value != s.fragmentId) &&
      (Receive(s, m).sent != [] ==> Receive(s, m).sent == [Send(m.sender, Message(MergeRequest, s.nodeId, None))])
  {
  }

  /**
   * MERGE_REQUEST and MERGE_CONFIRMATION carrying a fragment id other than the
   * node's own: the node takes the smaller of its fragment id and the sender's
   * id, sets the flag and floods a FRAGMENT_UPDATE to every neighbour; a
   * MERGE_REQUEST then confirms to the sender, failing (after the flood) when
   * the sender is not a neighbour.
   */
  lemma MergeTakesSmallerId(s: Local, m: Message)
    requires m.kind == MergeRequest || m.kind == MergeConfirmation
    requires m.fragmentId.Some? && m.fragmentId.value != s.fragmentId
    ensures Receive(s, m).fragmentId == Min(s.fragmentId, m.sender)
    ensures Receive(s, m).fragmentId <= s.fragmentId && Receive(s, m).changed
    ensures var flood := Broadcast(s.neighbors, Message(FragmentUpdate, s.nodeId, Some(Receive(s, m).fragmentId)));
      if m.kind == MergeConfirmation then Receive(s, m).sent == flood && Receive(s, m).ok
      else if m.sender in s.neighbors then
        Receive(s, m).sent == flood + [Send(m.sender, Message(MergeConfirmation, s.nodeId, None))] && Receive(s, m).ok
      else Receive(s, m).sent == flood && !Receive(s, m).ok
  {
  }

  /**
   * A MERGE_REQUEST always confirms to a neighbouring sender, also when the
   * fragment ids already agree; a MERGE_CONFIRMATION with the node's own
   * fragment id does nothing.
   */
  lemma MergeWithSameIdKeepsState(s: Local, m: Message)
    requires m.kind == MergeRequest || m.kind == MergeConfirmation
    requires m.fragmentId == Some(s.fragmentId)
    ensures After(s, Receive(s, m)) == s
    ensures m.kind == MergeConfirmation ==> Receive(s, m).sent == [] && Receive(s, m).ok
    ensures m.kind == MergeRequest && m.sender in s.neighbors ==>
      Receive(s, m).sent == [Send(m.sender, Message(MergeConfirmation, s.nodeId, None))] && Receive(s, m).ok
  {
  }

  /**
   * The MERGE_REQUEST and MERGE_CONFIRMATION messages the handler itself
   * sends carry no fragment id, so delivering any of them to any node fails
   * at the lookup of that id: nothing changes and nothing is sent.
   */
  lemma BuiltMergesFail(s: Local, m: Message, t: Local, k: nat)
    requires k < |Receive(s, m).sent|
    requires Receive(s, m).sent[k].message.kind in {MergeRequest, MergeConfirmation}
    ensures Receive(t, Receive(s, m).sent[k].message) == Step(t.fragmentId, t.changed, [], false)
  {
  }

  /**
   * FRAGMENT_UPDATE with an id other than the node's own adopts it, whether
   * it is smaller or larger, sets the flag and floods it on; delivering the
   * same update again changes nothing and sends nothing.
   */
  lemma FragmentUpdateAdopts(s: Local, m: Message)
    requires m.kind == FragmentUpdate && m.fragmentId.Some?
    ensures var r := Receive(s, m);
      r.ok &&
      (m.fragmentId.value != s.fragmentId ==>
        r.fragmentId == m.fragmentId.value && r.changed &&
        r.sent == Broadcast(s.neighbors, Message(FragmentUpdate, s.nodeId, m.fragmentId)))
    ensures var r := Receive(s, m);
      Receive(After(s, r), m) == Step(r.fragmentId, r.changed, [], true)
  {
  }

  /**
   * Messages of any type the handler does not dispatch on, among them the
   * lower-case tags of `find_moe` and `check_termination`, leave the state as
   * it is and send nothing.
   */
  lemma UnknownTypesIgnored(s: Local, m: Message)
    requires m.kind !in {MoeRequest, MoeResponse, MergeRequest, MergeConfirmation, FragmentUpdate}
    ensures Receive(s, m) == Step(s.fragmentId, s.changed, [], true)
  {
  }

  /** What `find_moe` broadcasts is ignored by every receiver. */
  lemma MoeRequestsIgnored(s: Local, t: Local, k: nat)
    requires k < |s.neighbors|
    ensures Receive(t, Broadcast(s.neighbors, Message(MoeRequestTag, s.nodeId, None))[k].message)
      == Step(t.fragmentId, t.changed, [], true)
  {
    assert MoeRequestTag != MoeRequest;
  }

  // ---------------------------------------------------------------------------
  // Nodes
  // ---------------------------------------------------------------------------

  /** A node of src/network/DistributedNode.py; `neighbors` holds the keys of its neighbour table. */
  class DistributedNode {
    const nodeId: int
    const neighbors: seq<int>
    var fragmentId: int
    var fragmentChanged: bool
    /** Never assigned after construction by this code; read by `FindMoe`. */
    var moe: Option<int>
    var outbox: seq<Send>

    /** A new node is a fragment of its own, flagged as changed, with no MOE. */
    constructor (nodeId: int, neighbors: seq<int>)
      requires Distinct(neighbors)
      ensures this.nodeId == nodeId && this.neighbors == neighbors
      ensures fragmentId == nodeId && moe == None && fragmentChanged
      ensures outbox == []
    {
      this.nodeId := nodeId;
      this.neighbors := neighbors;
      fragmentId := nodeId;
      moe := None;
      fragmentChanged := true;
      outbox := [];
    }

    /** The handler-visible part of this node. */
    function State(): Local
      reads this`fragmentId, this`fragmentChanged
    {
      Local(nodeId, neighbors, fragmentId, fragmentChanged)
    }

    /** `send_message`: only neighbours can be addressed. */
    method SendMessage(to: int, m: Message) returns (ok: bool)
      modifies this`outbox
      ensures ok <==> to in neighbors
      ensures outbox == old(outbox) + if ok then [Send(to, m)] else []
    {
      if to !in neighbors {
        return false;
      }
      outbox := outbox + [Send(to, m)];
      ok := true;
    }

    /** Sends `m` to every neighbour in turn. */
    method SendToAll(m: Message)
      modifies this`outbox
      ensures outbox == old(outbox) + Broadcast(neighbors, m)
    {
      for i := 0 to |neighbors|
        invariant outbox == old(outbox) + Broadcast(neighbors[..i], m)
      {
        assert neighbors[..i + 1][..i] == neighbors[..i];
        var ok := SendMessage(neighbors[i], m);
        assert ok;
      }
      assert neighbors[..|neighbors|] == neighbors;
    }

    /** `propagate_fragment_change`: one FRAGMENT_UPDATE with the current id per neighbour. */
    method PropagateFragmentChange()
      modifies this`outbox
      ensures outbox == old(outbox) + Broadcast(neighbors, Message(FragmentUpdate, nodeId, Some(fragmentId)))
    {
      SendToAll(Message(FragmentUpdate, nodeId, Some(fragmentId)));
    }

    /** `handle_message`: performs the transition `Receive` on this node. */
    method HandleMessage(m: Message) returns (ok: bool)
      modifies this`fragmentId, this`fragmentChanged, this`outbox
      ensures var r := Receive(old(State()), m);
        fragmentId == r.fragmentId && fragmentChanged == r.changed &&
        outbox == old(outbox) + r.sent && ok == r.ok
    {
      ok := true;
      if m.kind == MoeRequest {
        ok := SendMessage(m.sender, Message(MoeResponse, nodeId, Some(fragmentId)));
      } else if m.kind == MoeResponse {
        if m.fragmentId.None? {
          return false;
        }
        if m.fragmentId.value != fragmentId {
          ok := SendMessage(m.sender, Message(MergeRequest, nodeId, None));
        }
      } else if m.kind == MergeRequest {
        if m.fragmentId.None? {
          return false;
        }
        if fragmentId != m.fragmentId.value {
          fragmentId := Min(fragmentId, m.sender);
          fragmentChanged := true;
          PropagateFragmentChange();
        }
        ok := SendMessage(m.sender, Message(MergeConfirmation, nodeId, None));
      } else if m.kind == MergeConfirmation {
        if m.fragmentId.None? {
          return false;
        }
        if fragmentId != m.fragmentId.value {
          fragmentId := Min(fragmentId, m.sender);
          fragmentChanged := true;
          PropagateFragmentChange();
        }
      } else if m.kind == FragmentUpdate {
        if m.fragmentId.None? {
          return false;
        }
        if fragmentId != m.fragmentId.value {
          fragmentId := m.fragmentId.value;
          fragmentChanged := true;
          PropagateFragmentChange();
        }
      }
    }

    /**
     * `find_moe`: when there is no MOE yet or the fragment changed, one
     * request goes to every neighbour and the flag is cleared; otherwise
     * nothing happens.
     */
    method FindMoe()
      modifies this`fragmentChanged, this`outbox
      ensures old(moe.None? || fragmentChanged) ==>
        !fragmentChanged && outbox == old(outbox) + Broadcast(neighbors, Message(MoeRequestTag, nodeId, None))
      ensures !old(moe.None? || fragmentChanged) ==> fragmentChanged == old(fragmentChanged) && outbox == old(outbox)
    {
      if moe.None? || fragmentChanged {
        SendToAll(Message(MoeRequestTag, nodeId, None));
        fragmentChanged := false;
      }
    }

    /** The per-node `check_termination`: its fragment id to every neighbour. */
    method CheckTermination()
      modifies this`outbox
      ensures outbox == old(outbox) + Broadcast(neighbors, Message(CheckTerminationTag, nodeId, Some(fragmentId)))
    {
      SendToAll(Message(CheckTerminationTag, nodeId, Some(fragmentId)));
    }
  }

  // ---------------------------------------------------------------------------
  // The module-level termination check
  // ---------------------------------------------------------------------------

  /** Every node of `nodes` is a different object. */
  predicate DistinctNodes(nodes: seq<DistributedNode>)
  {
    forall i, j :: 0 <= i < j < |nodes| ==> nodes[i] != nodes[j]
  }

  /**
   * The module-level `check_termination`: the first pass overwrites every
   * fragment id with the first node's, so the check that follows succeeds
   * and the loop ends after that one pass, having had every node send its
   * termination check. An empty list ends at once.
   */
  method CheckTermination(nodes: seq<DistributedNode>) returns (ghost passes: nat)
    requires DistinctNodes(nodes)
    modifies set k | 0 <= k < |nodes| :: nodes[k]
    ensures passes == 1
    ensures forall k :: 0 <= k < |nodes| ==> nodes[k].fragmentId == old(nodes[0].fragmentId)
    ensures forall k :: 0 <= k < |nodes| ==>
      nodes[k].fragmentChanged == old(nodes[k].fragmentChanged) && nodes[k].moe == old(nodes[k].moe)
    ensures forall k :: 0 <= k < |nodes| ==>
      nodes[k].outbox == old(nodes[k].outbox) +
        Broadcast(nodes[k].neighbors, Message(CheckTerminationTag, nodes[k].nodeId, Some(nodes[0].fragmentId)))
  {
    var fid: Option<int> := None;
    var done := false;
    passes := 0;
    while !done
      invariant !done ==> passes == 0 && fid.None?
      invariant done ==> passes == 1
      invariant done ==> forall k :: 0 <= k < |nodes| ==> nodes[k].fragmentId == old(nodes[0].fragmentId)
      invariant forall k :: 0 <= k < |nodes| ==>
        nodes[k].fragmentChanged == old(nodes[k].fragmentChanged) && nodes[k].moe == old(nodes[k].moe)
      invariant !done ==> forall k :: 0 <= k < |nodes| ==>
        nodes[k].fragmentId == old(nodes[k].fragmentId) && nodes[k].outbox == old(nodes[k].outbox)
      invariant done ==> forall k :: 0 <= k < |nodes| ==>
        nodes[k].outbox == old(nodes[k].outbox) +
          Broadcast(nodes[k].neighbors, Message(CheckTerminationTag, nodes[k].nodeId, Some(nodes[0].fragmentId)))
      decreases if done then 0 else 1
    {
      fid := Overwrite(nodes);
      var allSame := true;
      var i := 0;
      while i < |nodes|
        invariant 0 <= i <= |nodes|
        invariant allSame
        invariant forall k :: 0 <= k < |nodes| ==> Some(nodes[k].fragmentId) == fid
        invariant |nodes| > 0 ==> fid == Some(old(nodes[0].fragmentId))
        invariant forall k :: 0 <= k < |nodes| ==>
          nodes[k].fragmentChanged == old(nodes[k].fragmentChanged) && nodes[k].moe == old(nodes[k].moe)
        invariant forall k :: 0 <= k < i ==>
          nodes[k].outbox == old(nodes[k].outbox) +
            Broadcast(nodes[k].neighbors, Message(CheckTerminationTag, nodes[k].nodeId, Some(nodes[0].fragmentId)))
        invariant forall k :: i <= k < |nodes| ==> nodes[k].outbox == old(nodes[k].outbox)
      {
        nodes[i].CheckTermination();
        if Some(nodes[i].fragmentId) != fid {
          allSame := false;
          break;
        }
        i := i + 1;
      }
      passes := passes + 1;
      done := allSame;
    }
  }

  /**
   * The first loop of `check_termination`: remembers the first node's
   * fragment id and writes it into every node that differs.
   */
  method Overwrite(nodes: seq<DistributedNode>) returns (fid: Option<int>)
    requires DistinctNodes(nodes)
    modifies set k | 0 <= k < |nodes| :: nodes[k]
    ensures fid == if |nodes| == 0 then None else Some(old(nodes[0].fragmentId))
    ensures forall k :: 0 <= k < |nodes| ==> Some(nodes[k].fragmentId) == fid
    ensures forall k :: 0 <= k < |nodes| ==>
      nodes[k].fragmentChanged == old(nodes[k].fragmentChanged) && nodes[k].moe == old(nodes[k].moe) &&
      nodes[k].outbox == old(nodes[k].outbox)
  {
    fid := None;
    for i := 0 to |nodes|
      invariant i == 0 <==> fid.None?
      invariant i > 0 ==> fid == Some(old(nodes[0].fragmentId))
      invariant forall k :: 0 <= k < i ==> Some(nodes[k].fragmentId) == fid
      invariant forall k :: 0 <= k < |nodes| ==>
        nodes[k].fragmentChanged == old(nodes[k].fragmentChanged) && nodes[k].moe == old(nodes[k].moe) &&
        nodes[k].outbox == old(nodes[k].outbox)
      invariant forall k :: i <= k < |nodes| ==> nodes[k].fragmentId == old(nodes[k].fragmentId)
    {
      if fid.None? {
        fid := Some(nodes[i].fragmentId);
      } else if nodes[i].fragmentId != fid.value {
        nodes[i].fragmentId := fid.value;
      }
    }
  }
}
