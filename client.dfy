/** The bot client's cached directory: the refresh tick that replaces it and
    the `thera` command that lists it. */
module Client {
  import opened Wormholes
  import opened Commands

  /** The cache a single refresh leaves behind: the payload on status 200,
      nothing otherwise. */
  function CacheOf(res: Response): Option<seq<Connection>> {
    if res.status != HttpOk then None else Some(res.payload)
  }

  /** The cache after a run of refreshes: only the latest response matters. */
  function CacheAfter(history: seq<Response>): Option<seq<Connection>> {
    if history == [] then None else CacheOf(history[|history| - 1])
  }

  /** What one tick's request produced: a response (whose body, on status 200,
      decoded to a payload), or an exception from `requests.get` or from
      decoding a status-200 body, which ends the tick before any assignment. */
  datatype Fetch = Received(response: Response) | Raised

  /** One row of the `thera` listing: the record and its size label. */
  datatype Row = Row(system: Connection, size: string)

  /** The `thera` command's reply: the "Could not access Thera data" message
      when nothing is cached, else one row per cached record. */
  datatype ListReply = NoData | Listing(rows: seq<Row>)

  class TheraBotClient {
    /** Number of ticks that received a response, status 200 or not. */
    var counter: int
    /** The payload of the last response, or None when its status was not
        200 or no response has been received. */
    var wormholes: Option<seq<Connection>>
    /** Whether the command tree was synced; refreshes leave it alone. */
    var synced: bool
    /** Every response a tick has received, oldest first. */
    ghost var history: seq<Response>

    ghost predicate Valid()
      reads this
    {
      counter == |history| && wormholes == CacheAfter(history)
    }

    constructor ()
      ensures Valid() && history == []
      ensures counter == 0 && wormholes == None && !synced
    {
      counter := 0;
      wormholes := None;
      synced := false;
      history := [];
    }

    /** One tick of `fetch_thera_api`. On a response, replace the cache by the
        payload on status 200 or by None otherwise, and count the tick either
        way. When the request or the decoding raises, the tick stops before
        touching either field. */
    method FetchTheraApi(fetch: Fetch)
      requires Valid()
      modifies this`counter, this`wormholes, this`history
      ensures Valid()
      ensures fetch.Raised? ==>
        counter == old(counter) && wormholes == old(wormholes) && history == old(history)
      ensures fetch.Received? ==>
        && history == old(history) + [fetch.response]
        && (fetch.response.status != HttpOk ==> wormholes == None)
        && (fetch.response.status == HttpOk ==> wormholes == Some(fetch.response.payload))
        && counter == old(counter) + 1
    {
      if fetch.Raised? {
        return;
      }
      var res := fetch.response;
      if res.status != HttpOk {
        wormholes := None;
      } else {
        wormholes := Some(res.payload);
      }
      counter := counter + 1;
      history := history + [res];
    }

    /** The `thera` command: nothing to list when the cache is empty, else each
        cached record in order with its size label. */
    method Thera() returns (reply: ListReply)
      ensures wormholes == None <==> reply == NoData
      ensures reply.Listing? ==>
        && wormholes.Some?
        && |reply.rows| == |wormholes.value|
        && forall i :: 0 <= i < |reply.rows| ==>
             reply.rows[i] == Row(wormholes.value[i], SizeOf(wormholes.value[i]))
    {
      if wormholes == None {
        return NoData;
      }
      var systems := wormholes.value;
      var rows: seq<Row> := [];
      for i := 0 to |systems|
        invariant |rows| == i
        invariant forall j :: 0 <= j < i ==> rows[j] == Row(systems[j], SizeOf(systems[j]))
      {
        rows := rows + [Row(systems[i], SizeOf(systems[i]))];
      }
      return Listing(rows);
    }
  }

  /** After a tick that received a non-200 response the listing has nothing to
      show, whatever was cached before. */
  method FailedRefreshHidesListing(client: TheraBotClient, res: Response) returns (reply: ListReply)
    requires client.Valid() && res.status != HttpOk
    modifies client`counter, client`wormholes, client`history
    ensures client.Valid() && client.synced == old(client.synced)
    ensures reply == NoData && client.counter == old(client.counter) + 1
  {
    client.FetchTheraApi(Received(res));
    reply := client.Thera();
  }

  /** A tick whose request raises leaves the previous listing in place, stale
      or not, and does not count. */
  method RaisedRefreshKeepsListing(client: TheraBotClient) returns (before: ListReply, after: ListReply)
    requires client.Valid()
    modifies client`counter, client`wormholes, client`history
    ensures client.Valid() && client.counter == old(client.counter)
    ensures after == before
  {
    before := client.Thera();
    client.FetchTheraApi(Raised);
    after := client.Thera();
  }
}
