/**
 * The callback registry (CallbackStore): two tables from a content type to the entries
 * registered for it, in registration order, and the dispatch of an incoming envelope to them.
 */
module Callbacks {
  import opened Types
  import opened MessageTypes
  import opened CallbackTokens
  import opened Envelopes

  /**
   * A delegate held by the store. Direct: a delegate handed to the store as it is. Typed: the
   * adapter ConnectionBase.On builds around a user handler for content type t; it casts its
   * argument to t and, around a request handler, turns a null result into an exception.
   */
  datatype Handler = Direct(id: HandlerId) | Typed(id: HandlerId, contentType: TypeTag)

  /** What calling a request handler gave back. */
  datatype HandlerResult =
    | ReturnedNull
    | ReturnedValue(value: Obj)
    | ReturnedTask(result: Option<Obj>)   // a completed Task<T>; None: its Result is null
    | HandlerThrew(e: Exception)

  /** What the registered user code does when it is called; left uninterpreted. */
  datatype Behaviour = Behaviour(
    act: (HandlerId, Obj) -> Option<Exception>,
    call: (HandlerId, Option<Obj>) -> HandlerResult)

  const InvalidCast: Exception := Failure("InvalidCastException", "Specified cast is not valid.")
  const HandlerReturnedNull: Exception := InvalidOperation("Handler returned null.")

  /** IpcAction (lines 220-232). A None action is a null delegate. */
  datatype IpcAction = IpcAction(contentType: TypeTag, action: Option<Handler>, token: CallbackToken)

  /**
   * IpcFunc (lines 234-256): ContentType (null for the parameterless kind), Handler (the
   * parameterless delegate), Handler2 (the one-argument delegate), ReturnType and the token.
   */
  datatype IpcFunc = IpcFunc(contentType: Option<TypeTag>, handler: Option<Handler>,
                             handler2: Option<Handler>, returnType: TypeTag, token: CallbackToken)

  /** The four-argument IpcFunc constructor, the one Add uses. */
  function FuncFor(handler: Option<Handler>, contentType: TypeTag, returnType: TypeTag,
                   token: CallbackToken): (f: IpcFunc)
    ensures f.contentType == Some(contentType) && f.handler2 == handler && f.handler.None?
    ensures f.returnType == returnType && f.token == token
  {
    IpcFunc(Some(contentType), None, handler, returnType, token)
  }

  /** The three-argument IpcFunc constructor, for a handler that takes no argument. */
  function ParameterlessFunc(handler: Option<Handler>, returnType: TypeTag,
                             token: CallbackToken): (f: IpcFunc)
    ensures f.contentType.None? && f.handler == handler && f.handler2.None?
    ensures f.returnType == returnType && f.token == token
  {
    IpcFunc(None, handler, None, returnType, token)
  }

  function ActionToken(a: IpcAction): CallbackToken { a.token }
  function FuncToken(f: IpcFunc): CallbackToken { f.token }

  /**
   * Invoking an action entry's delegate on the content: `callback.Action.Invoke(content)`.
   * A null delegate throws NullReferenceException; the typed adapter's cast throws
   * InvalidCastException for content that is not of its type, and otherwise the handler runs.
   */
  function RunAction(beh: Behaviour, action: Option<Handler>, content: Obj): (r: Option<Exception>)
    ensures action.None? ==> r == Some(NullReference)
    ensures action.Some? && action.value.Typed? && !InstanceOf(content, action.value.contentType) ==>
      r == Some(InvalidCast)
    ensures action.Some? && (action.value.Direct? || InstanceOf(content, action.value.contentType)) ==>
      r == beh.act(action.value.id, content)
  {
    match action
    case None => Some(NullReference)
    case Some(Direct(id)) => beh.act(id, content)
    case Some(Typed(id, t)) => if !InstanceOf(content, t) then Some(InvalidCast) else beh.act(id, content)
  }

  /** `func.Handler?.Invoke()` or `func.Handler2?.Invoke(content)`: a null delegate gives null. */
  function RunFunc(beh: Behaviour, handler: Option<Handler>, arg: Option<Obj>): (r: HandlerResult)
    ensures handler.None? ==> r == ReturnedNull
    ensures handler.Some? && handler.value.Typed? ==> !r.ReturnedNull?
    ensures handler.Some? && handler.value.Typed? && arg.Some? && !InstanceOf(arg.value, handler.value.contentType) ==>
      r == HandlerThrew(InvalidCast)
  {
    match handler
    case None => ReturnedNull
    case Some(Direct(id)) => beh.call(id, arg)
    case Some(Typed(id, t)) =>
      if arg.Some? && !InstanceOf(arg.value, t) then HandlerThrew(InvalidCast)
      else
        var r := beh.call(id, arg);
        if r.ReturnedNull? then HandlerThrew(HandlerReturnedNull) else r
  }

  /** The entries of a table registered under t; TryGetValue failing reads as no entries. */
  function Registered<E>(m: map<TypeTag, seq<E>>, t: TypeTag): (l: seq<E>)
    ensures t !in m ==> l == []
  {
    if t in m then m[t] else []
  }

  /** The entries of l whose content type is t. */
  function MatchingActions(l: seq<IpcAction>, t: TypeTag): (r: seq<IpcAction>)
    ensures |r| <= |l|
    ensures forall i | 0 <= i < |r| :: r[i] in l && r[i].contentType == t
  {
    if l == [] then []
    else (if l[0].contentType == t then [l[0]] else []) + MatchingActions(l[1..], t)
  }

  /** Every entry of l whose content type is t is among the matching ones. */
  lemma {:induction false} MatchingActionsComplete(l: seq<IpcAction>, t: TypeTag)
    ensures forall i | 0 <= i < |l| && l[i].contentType == t :: l[i] in MatchingActions(l, t)
    decreases |l|
  {
    if l != [] {
      MatchingActionsComplete(l[1..], t);
      assert forall i | 1 <= i < |l| :: l[i] == l[1..][i - 1];
    }
  }

  /** Filtering distributes over concatenation: the matching entries keep their order. */
  lemma {:induction false} MatchingActionsAppend(a: seq<IpcAction>, b: seq<IpcAction>, t: TypeTag)
    ensures MatchingActions(a + b, t) == MatchingActions(a, t) + MatchingActions(b, t)
    decreases |a|
  {
    if a == [] {
      assert a + b == b;
    } else {
      MatchingActionsAppend(a[1..], b, t);
      assert (a + b)[0] == a[0] && (a + b)[1..] == a[1..] + b;
      var head := if a[0].contentType == t then [a[0]] else [];
      assert MatchingActions(a + b, t) == head + MatchingActions(a[1..] + b, t);
      assert MatchingActions(a, t) == head + MatchingActions(a[1..], t);
      assert head + (MatchingActions(a[1..], t) + MatchingActions(b, t))
          == (head + MatchingActions(a[1..], t)) + MatchingActions(b, t);
    }
  }

  function Tokens<E>(l: seq<E>, tokenOf: E -> CallbackToken): (r: seq<CallbackToken>)
    ensures |r| == |l| && forall i | 0 <= i < |l| :: r[i] == tokenOf(l[i])
  {
    if l == [] then [] else [tokenOf(l[0])] + Tokens(l[1..], tokenOf)
  }

  // ---------------------------------------------------------------------------------------
  // InvokeActions (lines 75-109)

  /** The actions called, in order, and how the dispatch ended. */
  datatype ActionDispatch = ActionDispatch(called: seq<CallbackToken>, outcome: Completion)

  /** One pass of the foreach at lines 91-103: entries of another type are skipped. */
  datatype ActionStep = Skipped | ActionStop(called: seq<CallbackToken>, outcome: Completion) | ActionDone(token: CallbackToken)

  function ActionCall(a: IpcAction, w: MessageWrapper, codec: Codec, beh: Behaviour): (s: ActionStep)
    ensures s.Skipped? <==> a.contentType != w.contentType
    ensures s.ActionDone? ==> s.token == a.token
    ensures s.ActionStop? ==> s.called == [] || s.called == [a.token]
  {
    if a.contentType != w.contentType then Skipped
    else match codec.deserialize(w.contentType, w.content)
      case Threw(e) => ActionStop([], Raised(e))
      case Null => ActionStop([], Normal)
      case Value(x) =>
        match RunAction(beh, a.action, x)
        case Some(e) => ActionStop([a.token], Raised(e))
        case None => ActionDone(a.token)
  }

  /** The whole loop: the entries are taken in list order until one stops the dispatch. */
  function ActionsDispatch(l: seq<IpcAction>, w: MessageWrapper, codec: Codec, beh: Behaviour): (d: ActionDispatch)
    ensures |d.called| <= |l|
    decreases |l|
  {
    if l == [] then ActionDispatch([], Normal)
    else match ActionCall(l[0], w, codec, beh)
      case Skipped => ActionsDispatch(l[1..], w, codec, beh)
      case ActionStop(c, o) => ActionDispatch(c, o)
      case ActionDone(tok) =>
        var rest := ActionsDispatch(l[1..], w, codec, beh);
        ActionDispatch([tok] + rest.called, rest.outcome)
  }

  /** The matching actions run in order on x until one throws. */
  function RunActions(m: seq<IpcAction>, beh: Behaviour, x: Obj): (d: ActionDispatch)
    decreases |m|
  {
    if m == [] then ActionDispatch([], Normal)
    else match RunAction(beh, m[0].action, x)
      case Some(e) => ActionDispatch([m[0].token], Raised(e))
      case None =>
        var rest := RunActions(m[1..], beh, x);
        ActionDispatch([m[0].token] + rest.called, rest.outcome)
  }

  /** Once the content deserialises, dispatch is running the matching actions in order. */
  lemma {:induction false} ActionsDispatchMatching(l: seq<IpcAction>, w: MessageWrapper, codec: Codec,
                                                   beh: Behaviour, x: Obj)
    requires codec.deserialize(w.contentType, w.content) == Value(x)
    ensures ActionsDispatch(l, w, codec, beh) == RunActions(MatchingActions(l, w.contentType), beh, x)
    decreases |l|
  {
    if l != [] {
      ActionsDispatchMatching(l[1..], w, codec, beh, x);
      var m' := MatchingActions(l[1..], w.contentType);
      if l[0].contentType == w.contentType {
        var m := MatchingActions(l, w.contentType);
        assert m == [l[0]] + m';
        assert m[0] == l[0] && m[1..] == m';
        match RunAction(beh, l[0].action, x)
        case Some(e) =>
          assert ActionCall(l[0], w, codec, beh) == ActionStop([l[0].token], Raised(e));
        case None =>
          assert ActionCall(l[0], w, codec, beh) == ActionDone(l[0].token);
      } else {
        assert ActionCall(l[0], w, codec, beh) == Skipped;
        assert MatchingActions(l, w.contentType) == [] + m' == m';
      }
    }
  }

  /** How many of the actions, from the first, return normally on x. */
  function FirstThrow(m: seq<IpcAction>, beh: Behaviour, x: Obj): (k: nat)
    ensures k <= |m|
    ensures forall i | 0 <= i < k :: RunAction(beh, m[i].action, x).None?
    ensures k < |m| ==> RunAction(beh, m[k].action, x).Some?
    decreases |m|
  {
    if m == [] || RunAction(beh, m[0].action, x).Some? then 0
    else
      var k := FirstThrow(m[1..], beh, x);
      assert forall i | 1 <= i < k + 1 :: m[i] == m[1..][i - 1];
      k + 1
  }

  /**
   * Running actions calls them in order, each once, up to and including the first that
   * throws, whose exception ends the run; with none throwing, all are called.
   */
  lemma {:induction false} RunActionsShape(m: seq<IpcAction>, beh: Behaviour, x: Obj)
    ensures var k := FirstThrow(m, beh, x);
      RunActions(m, beh, x)
      == if k < |m| then ActionDispatch(Tokens(m[..k + 1], ActionToken), Raised(RunAction(beh, m[k].action, x).value))
         else ActionDispatch(Tokens(m, ActionToken), Normal)
    decreases |m|
  {
    if m != [] && RunAction(beh, m[0].action, x).None? {
      var m' := m[1..];
      RunActionsShape(m', beh, x);
      var k' := FirstThrow(m', beh, x);
      assert FirstThrow(m, beh, x) == k' + 1;
      var rest := RunActions(m', beh, x);
      assert RunActions(m, beh, x) == ActionDispatch([m[0].token] + rest.called, rest.outcome);
      if k' < |m'| {
        var p := m[..k' + 2];
        assert p[0] == m[0] && p[1..] == m'[..k' + 1];
        assert m[k' + 1] == m'[k'];
      }
    } else if m != [] {
      var p := m[..1];
      assert p[0] == m[0] && p[1..] == [];
    }
  }

  /**
   * When the content deserialises to x, dispatch calls the matching actions in registration
   * order, each once, and stops right after the first that throws, with its exception.
   */
  lemma ActionsDispatchShape(l: seq<IpcAction>, w: MessageWrapper, codec: Codec, beh: Behaviour, x: Obj)
    requires codec.deserialize(w.contentType, w.content) == Value(x)
    ensures var m := MatchingActions(l, w.contentType);
      var k := FirstThrow(m, beh, x);
      ActionsDispatch(l, w, codec, beh)
      == if k < |m| then ActionDispatch(Tokens(m[..k + 1], ActionToken), Raised(RunAction(beh, m[k].action, x).value))
         else ActionDispatch(Tokens(m, ActionToken), Normal)
  {
    ActionsDispatchMatching(l, w, codec, beh, x);
    RunActionsShape(MatchingActions(l, w.contentType), beh, x);
  }

  /** With every matching action returning normally, each is called once, in order. */
  lemma ActionsRunAllInOrder(l: seq<IpcAction>, w: MessageWrapper, codec: Codec, beh: Behaviour, x: Obj)
    requires codec.deserialize(w.contentType, w.content) == Value(x)
    requires forall a | a in l && a.contentType == w.contentType :: RunAction(beh, a.action, x).None?
    ensures ActionsDispatch(l, w, codec, beh)
         == ActionDispatch(Tokens(MatchingActions(l, w.contentType), ActionToken), Normal)
  {
    ActionsDispatchShape(l, w, codec, beh, x);
  }

  /**
   * A content that deserialises to null, or throws, stops the dispatch before the first
   * matching action: nothing is called, and an exception propagates.
   */
  lemma {:induction false} ActionsUndecodable(l: seq<IpcAction>, w: MessageWrapper, codec: Codec, beh: Behaviour)
    requires !codec.deserialize(w.contentType, w.content).Value?
    ensures var d := ActionsDispatch(l, w, codec, beh);
      d.called == []
      && d.outcome == (if MatchingActions(l, w.contentType) != [] && codec.deserialize(w.contentType, w.content).Threw?
                       then Raised(codec.deserialize(w.contentType, w.content).e) else Normal)
    decreases |l|
  {
    if l != [] && l[0].contentType != w.contentType {
      ActionsUndecodable(l[1..], w, codec, beh);
    }
  }

  // ---------------------------------------------------------------------------------------
  // InvokeFuncs (lines 111-171)

  /** The value a reply carries and the type it is tagged with. */
  datatype Reply = Reply(contentType: TypeTag, value: Obj)

  datatype FuncDispatch = FuncDispatch(called: seq<CallbackToken>, replies: seq<Reply>, outcome: Completion)

  /** One pass of the foreach at lines 127-165: it either stops the dispatch or yields a reply. */
  datatype FuncStep = FuncStop(called: seq<CallbackToken>, outcome: Completion)
                    | Answer(called: seq<CallbackToken>, reply: Reply)

  /**
   * Lines 129-157: call the entry's delegate (or not, for an entry of another type), then a
   * null result stops the loop, a task is awaited and the reply is tagged with its value's
   * runtime type, and any other value is tagged with the entry's ReturnType.
   */
  function FuncCall(f: IpcFunc, w: MessageWrapper, codec: Codec, beh: Behaviour): (s: FuncStep)
    ensures s.Answer? ==> s.called == [f.token]
    ensures s.called == [] || s.called == [f.token]
  {
    var call: Option<(Option<Handler>, Option<Obj>)> :=
      if f.contentType.None? then Some((f.handler, None))
      else if f.contentType.value == w.contentType then
        match codec.deserialize(w.contentType, w.content)
        case Value(x) => Some((f.handler2, Some(x)))
        case _ => None
      else Some((None, None));
    match call
    case None =>
      var d := codec.deserialize(w.contentType, w.content);
      FuncStop([], if d.Threw? then Raised(d.e) else Normal)
    case Some((delegate, arg)) =>
      var called := if delegate.Some? then [f.token] else [];
      match RunFunc(beh, delegate, arg)
      case ReturnedNull => FuncStop(called, Normal)
      case HandlerThrew(e) => FuncStop(called, Raised(e))
      case ReturnedTask(None) => FuncStop(called, Raised(NullReference))
      case ReturnedTask(Some(v)) => Answer(called, Reply(v.runtimeType, v))
      case ReturnedValue(v) => Answer(called, Reply(f.returnType, v))
  }

  function FuncsDispatch(l: seq<IpcFunc>, w: MessageWrapper, codec: Codec, beh: Behaviour): (d: FuncDispatch)
    ensures |d.replies| <= |l| && |d.called| <= |l|
    decreases |l|
  {
    if l == [] then FuncDispatch([], [], Normal)
    else match FuncCall(l[0], w, codec, beh)
      case FuncStop(c, o) => FuncDispatch(c, [], o)
      case Answer(c, r) =>
        var rest := FuncsDispatch(l[1..], w, codec, beh);
        FuncDispatch(c + rest.called, [r] + rest.replies, rest.outcome)
  }

  /** The dispatch from entry i on: entry i's step, then the rest. */
  lemma FuncsDispatchUnfold(l: seq<IpcFunc>, i: nat, w: MessageWrapper, codec: Codec, beh: Behaviour)
    requires i < |l|
    ensures FuncsDispatch(l[i..], w, codec, beh)
         == match FuncCall(l[i], w, codec, beh)
            case FuncStop(c, o) => FuncDispatch(c, [], o)
            case Answer(c, r) =>
              var rest := FuncsDispatch(l[i + 1..], w, codec, beh);
              FuncDispatch(c + rest.called, [r] + rest.replies, rest.outcome)
  {
    assert l[i..][0] == l[i] && l[i..][1..] == l[i + 1..];
  }

  /** The dispatch of l, given what the entries before i have called and answered. */
  function DispatchFrom(l: seq<IpcFunc>, i: nat, w: MessageWrapper, codec: Codec, beh: Behaviour,
                        called: seq<CallbackToken>, replies: seq<Reply>): FuncDispatch
    requires i <= |l|
  {
    var rest := FuncsDispatch(l[i..], w, codec, beh);
    FuncDispatch(called + rest.called, replies + rest.replies, rest.outcome)
  }

  /** One pass of InvokeFuncs' loop keeps the dispatch it is computing. */
  lemma DispatchAdvance(l: seq<IpcFunc>, i: nat, w: MessageWrapper, codec: Codec, beh: Behaviour,
                        called: seq<CallbackToken>, replies: seq<Reply>)
    requires i < |l|
    ensures var step := FuncCall(l[i], w, codec, beh);
      (step.FuncStop? ==> DispatchFrom(l, i, w, codec, beh, called, replies)
                          == FuncDispatch(called + step.called, replies, step.outcome))
      && (step.Answer? ==> DispatchFrom(l, i, w, codec, beh, called, replies)
                           == DispatchFrom(l, i + 1, w, codec, beh, called + step.called, replies + [step.reply]))
  {
    FuncsDispatchUnfold(l, i, w, codec, beh);
    var step := FuncCall(l[i], w, codec, beh);
    if step.Answer? {
      var rest := FuncsDispatch(l[i + 1..], w, codec, beh);
      assert called + (step.called + rest.called) == called + step.called + rest.called;
      assert replies + ([step.reply] + rest.replies) == replies + [step.reply] + rest.replies;
    } else {
      assert replies + [] == replies;
    }
  }

  /**
   * The funcs are taken in registration order: the i-th reply is the i-th func's, the first
   * func that yields no reply ends the dispatch with its outcome, and the dispatch ends
   * normally with one reply per func when every func answers. The funcs called are those
   * that answered, in order, then whichever delegate the stopping func ran.
   */
  lemma {:induction false} FuncsDispatchShape(l: seq<IpcFunc>, w: MessageWrapper, codec: Codec, beh: Behaviour)
    ensures var d := FuncsDispatch(l, w, codec, beh);
      |d.replies| <= |l|
      && (forall i | 0 <= i < |d.replies| ::
            FuncCall(l[i], w, codec, beh) == Answer([l[i].token], d.replies[i]))
      && (|d.replies| < |l| ==> FuncCall(l[|d.replies|], w, codec, beh).FuncStop?
                                && d.outcome == FuncCall(l[|d.replies|], w, codec, beh).outcome)
      && (|d.replies| == |l| ==> d.outcome == Normal)
      && d.called == Tokens(l[..|d.replies|], FuncToken)
                     + (if |d.replies| < |l| then FuncCall(l[|d.replies|], w, codec, beh).called else [])
    decreases |l|
  {
    if l != [] {
      FuncsDispatchShape(l[1..], w, codec, beh);
      var d := FuncsDispatch(l, w, codec, beh);
      var rest := FuncsDispatch(l[1..], w, codec, beh);
      FuncsDispatchCalls(l, w, codec, beh);
      if FuncCall(l[0], w, codec, beh).Answer? {
        assert d.replies == [FuncCall(l[0], w, codec, beh).reply] + rest.replies;
        forall i | 0 <= i < |d.replies|
          ensures FuncCall(l[i], w, codec, beh) == Answer([l[i].token], d.replies[i])
        {
          if i > 0 { assert l[i] == l[1..][i - 1]; }
        }
        if |d.replies| < |l| {
          assert l[|d.replies|] == l[1..][|rest.replies|];
        }
      }
    }
  }

  /** The called part of FuncsDispatchShape, by its own induction. */
  lemma {:induction false} FuncsDispatchCalls(l: seq<IpcFunc>, w: MessageWrapper, codec: Codec, beh: Behaviour)
    ensures var d := FuncsDispatch(l, w, codec, beh);
      d.called == Tokens(l[..|d.replies|], FuncToken)
                  + (if |d.replies| < |l| then FuncCall(l[|d.replies|], w, codec, beh).called else [])
    decreases |l|
  {
    if l != [] {
      var step := FuncCall(l[0], w, codec, beh);
      if step.FuncStop? {
        assert Tokens(l[..0], FuncToken) == [];
      } else {
        FuncsDispatchCalls(l[1..], w, codec, beh);
        var rest := FuncsDispatch(l[1..], w, codec, beh);
        var k := |rest.replies|;
        assert l[..k + 1][1..] == l[1..][..k];
        assert Tokens(l[..k + 1], FuncToken) == [l[0].token] + Tokens(l[1..][..k], FuncToken);
        if k < |l[1..]| {
          assert l[1..][k] == l[k + 1];
        }
      }
    }
  }

  /** Every reply answers the request it was dispatched for: it is a Response to w.Id. */
  lemma FuncsReplyToRequest(id: Guid, codec: Codec, r: Reply, w: MessageWrapper)
    ensures AnswersTo(CreateResponse(id, codec, r.contentType, r.value, w.id), w.id)
    ensures Carries(CreateResponse(id, codec, r.contentType, r.value, w.id), codec, r.contentType, r.value)
  {
  }

  /**
   * A request handler registered through On answers a request whose content deserialises
   * to a value of its type with exactly one reply, tagged with the declared return type
   * (or with the awaited value's type when it returned a task).
   */
  lemma TypedFuncAnswers(id: HandlerId, t: TypeTag, returnType: TypeTag, tok: CallbackToken,
                         w: MessageWrapper, codec: Codec, beh: Behaviour, x: Obj)
    requires w.contentType == t && codec.deserialize(t, w.content) == Value(x) && InstanceOf(x, t)
    ensures var s := FuncCall(FuncFor(Some(Typed(id, t)), t, returnType, tok), w, codec, beh);
      match beh.call(id, Some(x))
      case ReturnedValue(v) => s == Answer([tok], Reply(returnType, v))
      case ReturnedTask(Some(v)) => s == Answer([tok], Reply(v.runtimeType, v))
      case ReturnedTask(None) => s == FuncStop([tok], Raised(NullReference))
      case ReturnedNull => s == FuncStop([tok], Raised(HandlerReturnedNull))
      case HandlerThrew(e) => s == FuncStop([tok], Raised(e))
  {
  }

  // ---------------------------------------------------------------------------------------
  // TryRemove (lines 173-198): List.RemoveAll with CallbackToken.Equals

  /** The entries of l whose token is not tok, in their order. */
  function Without<E>(l: seq<E>, tokenOf: E -> CallbackToken, tok: CallbackToken): (r: seq<E>)
    ensures |r| <= |l|
  {
    if l == [] then []
    else (if Equals(tokenOf(l[0]), tok) then [] else [l[0]]) + Without(l[1..], tokenOf, tok)
  }

  /** What RemoveAll returns: how many entries carry tok. */
  function Occurrences<E>(l: seq<E>, tokenOf: E -> CallbackToken, tok: CallbackToken): (n: nat)
    ensures n <= |l|
  {
    if l == [] then 0
    else (if tokenOf(l[0]) == tok then 1 else 0) + Occurrences(l[1..], tokenOf, tok)
  }

  predicate DistinctTokens<E>(l: seq<E>, tokenOf: E -> CallbackToken)
  {
    forall i, j | 0 <= i < j < |l| :: tokenOf(l[i]) != tokenOf(l[j])
  }

  /**
   * RemoveAll keeps exactly the entries without tok, drops as many as it counts, and counts
   * something exactly when some entry carries tok.
   */
  lemma {:induction false} WithoutSpec<E>(l: seq<E>, tokenOf: E -> CallbackToken, tok: CallbackToken)
    ensures forall e :: e in Without(l, tokenOf, tok) <==> e in l && tokenOf(e) != tok
    ensures |Without(l, tokenOf, tok)| == |l| - Occurrences(l, tokenOf, tok)
    ensures Occurrences(l, tokenOf, tok) > 0 <==> exists i | 0 <= i < |l| :: tokenOf(l[i]) == tok
    ensures Occurrences(l, tokenOf, tok) == 0 ==> Without(l, tokenOf, tok) == l
    decreases |l|
  {
    if l != [] {
      WithoutSpec(l[1..], tokenOf, tok);
      assert l == [l[0]] + l[1..];
      if exists i | 0 <= i < |l| :: tokenOf(l[i]) == tok {
        var i :| 0 <= i < |l| && tokenOf(l[i]) == tok;
        if i > 0 { assert tokenOf(l[1..][i - 1]) == tok; }
      }
    }
  }

  /** With distinct tokens, removing the token of entry k removes that entry and no other. */
  lemma {:induction false} WithoutDistinct<E>(l: seq<E>, tokenOf: E -> CallbackToken, k: nat)
    requires DistinctTokens(l, tokenOf) && k < |l|
    ensures Without(l, tokenOf, tokenOf(l[k])) == l[..k] + l[k + 1..]
    ensures Occurrences(l, tokenOf, tokenOf(l[k])) == 1
    decreases |l|
  {
    var tok := tokenOf(l[k]);
    var tail := l[1..];
    assert DistinctTokens(tail, tokenOf) by {
      forall i, j | 0 <= i < j < |tail| ensures tokenOf(tail[i]) != tokenOf(tail[j]) {
        assert tail[i] == l[i + 1] && tail[j] == l[j + 1];
      }
    }
    if k == 0 {
      WithoutSpec(tail, tokenOf, tok);
      forall i | 0 <= i < |tail| ensures tokenOf(tail[i]) != tok {
        assert tail[i] == l[i + 1];
      }
      assert l[k + 1..] == tail;
    } else {
      assert tokenOf(tail[k - 1]) == tok;
      WithoutDistinct(tail, tokenOf, k - 1);
      assert l[..k] == [l[0]] + tail[..k - 1];
      assert l[k + 1..] == tail[k..];
    }
  }

  /** Every entry RemoveAll keeps was in the list. */
  lemma {:induction false} WithoutSubsequence<E>(l: seq<E>, tokenOf: E -> CallbackToken, tok: CallbackToken)
    ensures forall e | e in Without(l, tokenOf, tok) :: e in l
    decreases |l|
  {
    if l != [] {
      WithoutSubsequence(l[1..], tokenOf, tok);
      assert forall e | e in Without(l[1..], tokenOf, tok) :: e in l;
    }
  }

  /** Dropping entries keeps the tokens distinct. */
  lemma {:induction false} WithoutKeepsDistinct<E>(l: seq<E>, tokenOf: E -> CallbackToken, tok: CallbackToken)
    requires DistinctTokens(l, tokenOf)
    ensures DistinctTokens(Without(l, tokenOf, tok), tokenOf)
    decreases |l|
  {
    if l != [] {
      var tail := l[1..];
      assert DistinctTokens(tail, tokenOf) by {
        forall i, j | 0 <= i < j < |tail| ensures tokenOf(tail[i]) != tokenOf(tail[j]) {
          assert tail[i] == l[i + 1] && tail[j] == l[j + 1];
        }
      }
      WithoutKeepsDistinct(tail, tokenOf, tok);
      WithoutSubsequence(tail, tokenOf, tok);
      var r := Without(tail, tokenOf, tok);
      forall i | 0 <= i < |r| ensures tokenOf(r[i]) != tokenOf(l[0]) {
        assert r[i] in r;
        var j :| 0 <= j < |tail| && tail[j] == r[i];
        assert tail[j] == l[j + 1];
      }
    }
  }

  /** Every entry of l carries a token below bound and is registered under t. */
  predicate ActionsUnder(l: seq<IpcAction>, t: TypeTag, bound: nat)
  {
    forall i | 0 <= i < |l| :: l[i].contentType == t && l[i].token.id < bound
  }

  predicate FuncsUnder(l: seq<IpcFunc>, t: TypeTag, bound: nat)
  {
    forall i | 0 <= i < |l| :: l[i].contentType == Some(t) && l[i].token.id < bound
  }

  /** Under the store's invariant every entry of a type's list matches that type. */
  lemma {:induction false} MatchingAllActions(l: seq<IpcAction>, t: TypeTag, bound: nat)
    requires ActionsUnder(l, t, bound)
    ensures MatchingActions(l, t) == l
    decreases |l|
  {
    if l != [] {
      assert ActionsUnder(l[1..], t, bound) by {
        forall i | 0 <= i < |l[1..]| ensures l[1..][i].contentType == t && l[1..][i].token.id < bound {
          assert l[1..][i] == l[i + 1];
        }
      }
      MatchingAllActions(l[1..], t, bound);
      assert l == [l[0]] + l[1..];
    }
  }

  /**
   * The replies InvokeFuncs built so far: one per answer, each carrying the answer back to the
   * request, with ids drawn in order from [lo, hi).
   */
  predicate RepliesSent(responses: seq<MessageWrapper>, replies: seq<Reply>, codec: Codec,
                        requestId: Guid, lo: nat, hi: nat)
  {
    |responses| == |replies| && lo <= hi
    && (forall k | 0 <= k < |responses| ::
          responses[k] == CreateResponse(responses[k].id, codec, replies[k].contentType, replies[k].value, requestId))
    && (forall k | 0 <= k < |responses| :: responses[k].id != EmptyGuid && lo <= responses[k].id < hi)
    && (forall k, j | 0 <= k < j < |responses| :: responses[k].id < responses[j].id)
  }

  lemma RepliesSentAppend(responses: seq<MessageWrapper>, replies: seq<Reply>, codec: Codec,
                          requestId: Guid, lo: nat, hi: nat, r: MessageWrapper, reply: Reply, hi': nat)
    requires RepliesSent(responses, replies, codec, requestId, lo, hi)
    requires r == CreateResponse(r.id, codec, reply.contentType, reply.value, requestId)
    requires r.id != EmptyGuid && hi <= r.id < hi'
    ensures RepliesSent(responses + [r], replies + [reply], codec, requestId, lo, hi')
  {
  }

  class CallbackStore {
    var actions: map<TypeTag, seq<IpcAction>>
    var funcs: map<TypeTag, seq<IpcFunc>>
    /** Where `new CallbackToken()` takes its fresh Guids from. */
    const tokens: GuidSource
    const codec: Codec
    const behaviour: Behaviour

    /**
     * Every entry sits under its own type and carries a token that was issued, and no two
     * entries of a list share a token.
     */
    ghost predicate Valid()
      reads this, tokens
    {
      (forall t | t in actions ::
         ActionsUnder(actions[t], t, tokens.next) && DistinctTokens(actions[t], ActionToken))
      && (forall t | t in funcs ::
         FuncsUnder(funcs[t], t, tokens.next) && DistinctTokens(funcs[t], FuncToken))
    }

    constructor (codec: Codec, behaviour: Behaviour)
      ensures Valid() && fresh(tokens)
      ensures actions == map[] && funcs == map[]
      ensures this.codec == codec && this.behaviour == behaviour
    {
      actions := map[];
      funcs := map[];
      tokens := new GuidSource();
      this.codec := codec;
      this.behaviour := behaviour;
    }

    /** Add(contentType, callback): a new entry with a fresh token at the end of the list. */
    method AddAction(contentType: TypeTag, callback: Option<Handler>) returns (token: CallbackToken)
      requires Valid()
      modifies this, tokens
      ensures Valid()
      ensures !old(tokens.Issued(token.id)) && token.id != EmptyGuid
      ensures actions == old(actions)[contentType :=
                Registered(old(actions), contentType) + [IpcAction(contentType, callback, token)]]
      ensures funcs == old(funcs)
    {
      token := NewToken(tokens);
      var action := IpcAction(contentType, callback, token);
      var l := if contentType in actions then actions[contentType] + [action] else [action];
      ghost var old' := Registered(actions, contentType);
      assert forall i | 0 <= i < |old'| :: old'[i].token.id < old(tokens.next) <= token.id;
      assert old' + [action] == l;
      actions := actions[contentType := l];
    }

    /** Add(handler, contentType, returnType): the same for the request table. */
    method AddFunc(handler: Option<Handler>, contentType: TypeTag, returnType: TypeTag)
      returns (token: CallbackToken)
      requires Valid()
      modifies this, tokens
      ensures Valid()
      ensures !old(tokens.Issued(token.id)) && token.id != EmptyGuid
      ensures funcs == old(funcs)[contentType :=
                Registered(old(funcs), contentType) + [FuncFor(handler, contentType, returnType, token)]]
      ensures actions == old(actions)
    {
      token := NewToken(tokens);
      var func := FuncFor(handler, contentType, returnType, token);
      var l := if contentType in funcs then funcs[contentType] + [func] else [func];
      ghost var old' := Registered(funcs, contentType);
      assert forall i | 0 <= i < |old'| :: old'[i].token.id < old(tokens.next) <= token.id;
      assert old' + [func] == l;
      funcs := funcs[contentType := l];
    }

    /** InvokeActions: a null envelope or an unknown type dispatches nothing. */
    method InvokeActions(wrapper: Option<MessageWrapper>) returns (d: ActionDispatch)
      ensures wrapper.None? ==> d == ActionDispatch([], Normal)
      ensures wrapper.Some? ==>
        d == ActionsDispatch(Registered(actions, wrapper.value.contentType), wrapper.value, codec, behaviour)
    {
      if wrapper.None? {
        return ActionDispatch([], Normal);
      }
      var w := wrapper.value;
      if w.contentType !in actions {
        return ActionDispatch([], Normal);
      }
      var l := actions[w.contentType];
      var called := [];
      for i := 0 to |l|
        invariant ActionsDispatch(l, w, codec, behaviour)
               == var rest := ActionsDispatch(l[i..], w, codec, behaviour);
                  ActionDispatch(called + rest.called, rest.outcome)
      {
        assert l[i..][0] == l[i] && l[i..][1..] == l[i + 1..];
        var callback := l[i];
        if callback.contentType == w.contentType {
          var content := codec.deserialize(w.contentType, w.content);
          match content {
            case Threw(e) =>
              return ActionDispatch(called, Raised(e));
            case Null =>
              return ActionDispatch(called, Normal);
            case Value(x) =>
              var thrown := RunAction(behaviour, callback.action, x);
              called := called + [callback.token];
              if thrown.Some? {
                return ActionDispatch(called, Raised(thrown.value));
              }
          }
        }
      }
      return ActionDispatch(called, Normal);
    }

    /**
     * InvokeFuncs: one Response envelope, with a fresh id, per reply of the dispatch; they
     * are handed on in order (to SendInternal, by the caller).
     */
    method InvokeFuncs(wrapper: Option<MessageWrapper>, ids: GuidSource)
      returns (called: seq<CallbackToken>, responses: seq<MessageWrapper>, outcome: Completion)
      modifies ids
      ensures wrapper.None? ==> called == [] && responses == [] && outcome == Normal
      ensures wrapper.Some? ==>
        var d := FuncsDispatch(Registered(funcs, wrapper.value.contentType), wrapper.value, codec, behaviour);
        called == d.called && outcome == d.outcome && |responses| == |d.replies|
        && forall i | 0 <= i < |responses| ::
             responses[i] == CreateResponse(responses[i].id, codec, d.replies[i].contentType,
                                            d.replies[i].value, wrapper.value.id)
      ensures forall i | 0 <= i < |responses| ::
        responses[i].id != EmptyGuid && old(ids.next) <= responses[i].id < ids.next
      ensures forall i, j | 0 <= i < j < |responses| :: responses[i].id < responses[j].id
      ensures old(ids.next) <= ids.next
    {
      called, responses, outcome := [], [], Normal;
      if wrapper.None? {
        return;
      }
      var w := wrapper.value;
      if w.contentType !in funcs {
        return;
      }
      var l := funcs[w.contentType];
      ghost var replies: seq<Reply> := [];
      assert l[0..] == l && [] + FuncsDispatch(l, w, codec, behaviour).called == FuncsDispatch(l, w, codec, behaviour).called;
      assert [] + FuncsDispatch(l, w, codec, behaviour).replies == FuncsDispatch(l, w, codec, behaviour).replies;
      var i := 0;
      while i < |l|
        invariant 0 <= i <= |l|
        invariant FuncsDispatch(l, w, codec, behaviour) == DispatchFrom(l, i, w, codec, behaviour, called, replies)
        invariant RepliesSent(responses, replies, codec, w.id, old(ids.next), ids.next)
      {
        DispatchAdvance(l, i, w, codec, behaviour, called, replies);
        var step := FuncCall(l[i], w, codec, behaviour);
        called := called + step.called;
        if step.FuncStop? {
          outcome := step.outcome;
          return;
        }
        var reply := step.reply;
        ghost var before := ids.next;
        var response := NewResponse(ids, codec, reply.contentType, reply.value, w.id);
        RepliesSentAppend(responses, replies, codec, w.id, old(ids.next), before, response, reply, ids.next);
        responses := responses + [response];
        replies := replies + [reply];
        i := i + 1;
      }
      assert l[|l|..] == [] && called + [] == called && replies + [] == replies;
    }

    /**
     * TryRemove(type, token): the entries of that type carrying the token go from both
     * tables; the lists stay under their key, possibly empty.
     */
    method TryRemove(contentType: TypeTag, token: CallbackToken) returns (found: bool)
      requires Valid()
      modifies this
      ensures Valid()
      ensures funcs == if contentType in old(funcs)
        then old(funcs)[contentType := Without(old(funcs)[contentType], FuncToken, token)] else old(funcs)
      ensures actions == if contentType in old(actions)
        then old(actions)[contentType := Without(old(actions)[contentType], ActionToken, token)] else old(actions)
      ensures found <==> Occurrences(Registered(old(funcs), contentType), FuncToken, token)
                         + Occurrences(Registered(old(actions), contentType), ActionToken, token) > 0
    {
      var count := RemoveFuncs(contentType, token);
      var more := RemoveActions(contentType, token);
      found := count + more > 0;
    }

    /** The funcs half of TryRemove: the RemoveAll on the type's func list, and its count. */
    method RemoveFuncs(contentType: TypeTag, token: CallbackToken) returns (count: nat)
      requires Valid()
      modifies this
      ensures Valid()
      ensures funcs == if contentType in old(funcs)
        then old(funcs)[contentType := Without(old(funcs)[contentType], FuncToken, token)] else old(funcs)
      ensures actions == old(actions)
      ensures count == Occurrences(Registered(old(funcs), contentType), FuncToken, token)
    {
      count := 0;
      if contentType in funcs {
        var l := funcs[contentType];
        WithoutSpec(l, FuncToken, token);
        WithoutKeepsDistinct(l, FuncToken, token);
        var r := Without(l, FuncToken, token);
        assert FuncsUnder(r, contentType, tokens.next) by {
          forall i | 0 <= i < |r| ensures r[i].contentType == Some(contentType) && r[i].token.id < tokens.next {
            assert r[i] in r;
          }
        }
        count := Occurrences(l, FuncToken, token);
        funcs := funcs[contentType := r];
      }
    }

    /** The actions half of TryRemove. */
    method RemoveActions(contentType: TypeTag, token: CallbackToken) returns (count: nat)
      requires Valid()
      modifies this
      ensures Valid()
      ensures actions == if contentType in old(actions)
        then old(actions)[contentType := Without(old(actions)[contentType], ActionToken, token)] else old(actions)
      ensures funcs == old(funcs)
      ensures count == Occurrences(Registered(old(actions), contentType), ActionToken, token)
    {
      count := 0;
      if contentType in actions {
        var l := actions[contentType];
        WithoutSpec(l, ActionToken, token);
        WithoutKeepsDistinct(l, ActionToken, token);
        var r := Without(l, ActionToken, token);
        assert ActionsUnder(r, contentType, tokens.next) by {
          forall i | 0 <= i < |r| ensures r[i].contentType == contentType && r[i].token.id < tokens.next {
            assert r[i] in r;
          }
        }
        count := Occurrences(l, ActionToken, token);
        actions := actions[contentType := r];
      }
    }

    /** TryRemoveAll(type): the key goes from both tables; true if either had it. */
    method TryRemoveAll(contentType: TypeTag) returns (found: bool)
      requires Valid()
      modifies this
      ensures Valid()
      ensures funcs == old(funcs) - {contentType} && actions == old(actions) - {contentType}
      ensures found <==> contentType in old(funcs) || contentType in old(actions)
    {
      found := false;
      if contentType in funcs {
        funcs := funcs - {contentType};
        found := true;
      }
      if contentType in actions {
        actions := actions - {contentType};
        found := true;
      }
    }
  }
}
