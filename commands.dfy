/** The `lookup` and `route` slash commands, with each HTTP fetch replaced by
    its response (status code and decoded payload). */
module Commands {
  import opened Wormholes
  import opened Selection

  /** A response of the wormhole directory: the status code and the list the
      JSON body decodes to. */
  datatype Response = Response(status: int, payload: seq<Connection>)

  const HttpOk: int := 200

  /** How a command ends: the "Could not access Thera data" message, Python's
      IndexError from indexing an empty sorted list, or an answer. */
  datatype Reply<T> = CouldNotAccess | IndexError | Answer(value: T)

  /** What `lookup` shows: the closest connection and its size label. */
  datatype ClosestView = ClosestView(system: Connection, size: string)

  /** What `route` shows: the connection closest to each endpoint, and the size
      label of the first, which the source shows under both. */
  datatype RouteView = RouteView(fromSource: Connection, toDestination: Connection, size: string)

  /** The `lookup` command for `systemName`, given the response to the search. */
  function Lookup(res: Response, systemName: string): (reply: Reply<ClosestView>)
    ensures res.status != HttpOk <==> reply.CouldNotAccess?
    ensures reply.IndexError? <==>
      res.status == HttpOk && DropArtifacts(res.payload, systemName) == []
    ensures reply.Answer? ==>
      && Closest(res.payload, systemName) == Some(reply.value.system)
      && reply.value.size == SizeOf(reply.value.system)
  {
    if res.status != HttpOk then CouldNotAccess
    else
      match Closest(res.payload, systemName)
      case None => IndexError
      case Some(system) => Answer(ClosestView(system, SizeOf(system)))
  }

  /** The answer of `lookup` is the earliest-in-payload record with the fewest
      jumps among those the artifact filter keeps. */
  lemma LookupAnswerIsClosest(res: Response, systemName: string)
    requires Lookup(res, systemName).Answer?
    ensures var c := Lookup(res, systemName).value.system;
      var kept := DropArtifacts(res.payload, systemName);
      && c in res.payload && !IsArtifact(c, systemName)
      && (forall r :: r in kept ==> c.jumps <= r.jumps)
      && exists i :: IsClosestAt(kept, i) && kept[i] == c
  {
    ClosestIsEarliestMinimum(res.payload, systemName);
  }

  /** The `route` command: the source search must succeed before the
      destination search is looked at, and only then are both lists filtered,
      sorted and indexed, each with its own search name. */
  function Route(sourceRes: Response, destinationRes: Response,
                 sourceSystem: string, destinationSystem: string): (reply: Reply<RouteView>)
    ensures sourceRes.status != HttpOk ==> reply.CouldNotAccess?
    ensures reply.CouldNotAccess? <==>
      sourceRes.status != HttpOk || destinationRes.status != HttpOk
    ensures reply.Answer? ==>
      && Closest(sourceRes.payload, sourceSystem) == Some(reply.value.fromSource)
      && Closest(destinationRes.payload, destinationSystem) == Some(reply.value.toDestination)
      && reply.value.size == SizeOf(reply.value.fromSource)
  {
    if sourceRes.status != HttpOk then CouldNotAccess
    else if destinationRes.status != HttpOk then CouldNotAccess
    else
      match (Closest(sourceRes.payload, sourceSystem), Closest(destinationRes.payload, destinationSystem))
      case (Some(s), Some(d)) => Answer(RouteView(s, d, SizeOf(s)))
      case _ => IndexError
  }

  /** `route` is two independent `lookup` selections: it cannot access the data
      when either search failed, raises when either filtered list is empty,
      and otherwise pairs the two closest connections. */
  lemma RouteIsTwoLookups(sourceRes: Response, destinationRes: Response,
                          sourceSystem: string, destinationSystem: string)
    ensures var reply := Route(sourceRes, destinationRes, sourceSystem, destinationSystem);
      var s := Lookup(sourceRes, sourceSystem);
      var d := Lookup(destinationRes, destinationSystem);
      && (reply.CouldNotAccess? <==> s.CouldNotAccess? || d.CouldNotAccess?)
      && (reply.IndexError? <==>
            !s.CouldNotAccess? && !d.CouldNotAccess? && (s.IndexError? || d.IndexError?))
      && (reply.Answer? <==> s.Answer? && d.Answer?)
      && (reply.Answer? ==>
            reply.value.fromSource == s.value.system
            && reply.value.toDestination == d.value.system
            && reply.value.size == s.value.size)
  {
  }

  /** A search for "Jita" returning two Jita records (3 and 1 jumps) and an
      Amarr record claiming 0 jumps: the Amarr record is an artifact, and the
      answer is the 1-jump Jita record. */
  lemma LookupJitaScenario(d: Display)
    ensures var far := Connection(3, "Jita", "K162", "Q063", d);
      var near := Connection(1, "Jita", "E587", "K162", d);
      var wspace := Connection(0, "Amarr", "K162", "V898", d);
      && DropArtifacts([far, near, wspace], "Jita") == [far, near]
      && Lookup(Response(200, [far, near, wspace]), "Jita")
         == Answer(ClosestView(near, FreighterLabel))
  {
    var far := Connection(3, "Jita", "K162", "Q063", d);
    var near := Connection(1, "Jita", "E587", "K162", d);
    var wspace := Connection(0, "Amarr", "K162", "V898", d);
    var payload := [far, near, wspace];
    JitaFiltered(d);
    JitaSorted(d);
    assert Candidates(payload, "Jita") == [near, far];
    assert Closest(payload, "Jita") == Some(near);
    assert SizeOf(near) == FreighterLabel by {
      assert EffectiveType(near) == "E587" && "E587" in FreighterTags;
    }
  }

  /** The filter step of the Jita search: only the Amarr record is dropped. */
  lemma JitaFiltered(d: Display)
    ensures var far := Connection(3, "Jita", "K162", "Q063", d);
      var near := Connection(1, "Jita", "E587", "K162", d);
      var wspace := Connection(0, "Amarr", "K162", "V898", d);
      DropArtifacts([far, near, wspace], "Jita") == [far, near]
  {
    var far := Connection(3, "Jita", "K162", "Q063", d);
    var near := Connection(1, "Jita", "E587", "K162", d);
    var wspace := Connection(0, "Amarr", "K162", "V898", d);
    assert IsArtifact(wspace, "Jita") by {
      assert |Lower("Amarr")| == 5 && |Lower("Jita")| == 4;
    }
    var payload := [far, near, wspace];
    assert payload[1..] == [near, wspace] && payload[1..][1..] == [wspace] && [wspace][1..] == [];
    assert DropArtifacts([wspace], "Jita") == [];
    assert DropArtifacts([near, wspace], "Jita") == [near];
  }

  /** The sort step of the Jita search: the 1-jump record moves ahead. */
  lemma JitaSorted(d: Display)
    ensures var far := Connection(3, "Jita", "K162", "Q063", d);
      var near := Connection(1, "Jita", "E587", "K162", d);
      SortByJumps([far, near]) == [near, far]
  {
    var far := Connection(3, "Jita", "K162", "Q063", d);
    var near := Connection(1, "Jita", "E587", "K162", d);
    assert [far, near][1..] == [near];
    assert SortByJumps([near]) == Insert(near, []) == [near];
    assert Insert(far, [near]) == [near] + Insert(far, []) == [near, far];
  }
}
