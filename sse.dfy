/** The server-sent-events side of the notes API (backend/routes.js): the
    module-level `sseClients` set of open `GET /notes/events` responses, the
    subscribe and close steps of that route, its keep-alive ping, and
    `broadcastNoteChange`, which writes one frame to every open response.

    A response is modelled by what has been written to it, in order, and
    whether its keep-alive interval is running. */
module Sse {
  import opened Wrappers
  import Routes

  /** The comment written when a client connects. */
  const ConnectedComment := ": connected\n\n"

  /** The comment the keep-alive interval writes. */
  const KeepAliveComment := ": keep-alive\n\n"

  /** What precedes the JSON in a change frame. */
  const FramePrefix := "event: noteChange\ndata: "

  /** What ends a change frame: the blank line that dispatches the event. */
  const FrameEnd := "\n\n"

  /** The frame `broadcastNoteChange` writes for an event serialised as
      `json`. */
  function Frame(json: string): string {
    FramePrefix + json + FrameEnd
  }

  /** The JSON a frame carries: what lies between the prefix and the final
      blank line, or `None` for a string that is not a change frame. */
  function FrameData(f: string): (r: Option<string>)
    ensures r.Some? ==> |FramePrefix| + |r.value| + |FrameEnd| == |f|
  {
    if |f| >= |FramePrefix| + |FrameEnd| && f[..|FramePrefix|] == FramePrefix
       && f[|f| - |FrameEnd|..] == FrameEnd
    then Some(f[|FramePrefix|..|f| - |FrameEnd|])
    else None
  }

  /** Framing is undone by reading the frame: a subscriber gets back exactly
      the JSON that was sent, and only a change frame reads as one. */
  lemma FrameRoundTrip(json: string, f: string)
    ensures FrameData(Frame(json)) == Some(json)
    ensures FrameData(f) == Some(json) <==> f == Frame(json)
  {
    var g := Frame(json);
    assert g[..|FramePrefix|] == FramePrefix;
    assert g[|g| - |FrameEnd|..] == FrameEnd;
    assert g[|FramePrefix|..|g| - |FrameEnd|] == json;
    if FrameData(f) == Some(json) {
      assert f == f[..|FramePrefix|] + f[|FramePrefix|..|f| - |FrameEnd|] + f[|f| - |FrameEnd|..];
    }
  }

  /** The two comments are not change frames: a reader that dispatches on
      `FrameData` never mistakes them for an event. */
  lemma CommentsAreNotFrames()
    ensures FrameData(ConnectedComment).None?
    ensures FrameData(KeepAliveComment).None?
  {
    assert ConnectedComment[0] != FramePrefix[0];
    assert KeepAliveComment[0] != FramePrefix[0];
  }

  /** One open `res` of the events route. */
  class Subscriber {
    /** Everything `res.write` has been given, in order. */
    var written: seq<string>
    /** Whether the keep-alive interval of this connection is running. */
    var keepAlive: bool

    /** A response nothing has been written to yet. */
    constructor ()
      ensures written == [] && !keepAlive
    {
      written := [];
      keepAlive := false;
    }

    /** `res.write(chunk)`: appends, never rewrites. */
    method Write(chunk: string)
      modifies this`written
      ensures written == old(written) + [chunk]
    {
      written := written + [chunk];
    }
  }

  /** `sseClients` together with the serialiser the broadcast uses. */
  class Registry {
    var clients: set<Subscriber>
    /** `JSON.stringify` on change events, as given by the environment. */
    const stringify: Routes.ServerEvent -> string

    /** Every registered response has its keep-alive running and began with
        the connected comment. */
    predicate Valid()
      reads this, clients
    {
      forall r :: r in clients ==> r.keepAlive && r.written != [] && r.written[0] == ConnectedComment
    }

    /** The module loads with no client. */
    constructor (stringify: Routes.ServerEvent -> string)
      ensures clients == {} && this.stringify == stringify
      ensures Valid()
    {
      clients := {};
      this.stringify := stringify;
    }

    /** A client connects: the connected comment is written to the new
        response, the response joins the set and its keep-alive starts. */
    method Subscribe(res: Subscriber)
      requires res.written == []
      modifies this`clients, res
      ensures clients == old(clients) + {res}
      ensures res.written == [ConnectedComment] && res.keepAlive
      ensures old(Valid()) ==> Valid()
    {
      res.Write(ConnectedComment);
      clients := clients + {res};
      res.keepAlive := true;
    }

    /** The keep-alive interval fires for `res`. */
    method Tick(res: Subscriber)
      requires res.keepAlive
      modifies res`written
      ensures res.written == old(res.written) + [KeepAliveComment]
      ensures old(Valid()) ==> Valid()
    {
      res.Write(KeepAliveComment);
    }

    /** The client goes away: the interval is cleared and the response
        leaves the set. Closing a response that is not in the set removes
        nothing, and no other response changes. */
    method Close(res: Subscriber)
      modifies this`clients, res`keepAlive
      ensures clients == old(clients) - {res}
      ensures !res.keepAlive
      ensures old(Valid()) ==> Valid()
    {
      res.keepAlive := false;
      clients := clients - {res};
    }

    /** `broadcastNoteChange(event)`: the frame of the serialised event is
        written once to every registered response. Nothing else changes:
        not the set, not any keep-alive, not a response outside the set. */
    method BroadcastNoteChange(event: Routes.ServerEvent)
      modifies clients
      ensures forall r :: r in clients ==> r.written == old(r.written) + [Frame(stringify(event))]
      ensures forall r :: r in clients ==> r.keepAlive == old(r.keepAlive)
      ensures old(Valid()) ==> Valid()
    {
      var data := Frame(stringify(event));
      var pending := clients;
      while pending != {}
        invariant pending <= clients
        invariant forall r :: r in clients - pending ==> r.written == old(r.written) + [data]
        invariant forall r :: r in pending ==> r.written == old(r.written)
        invariant forall r :: r in clients ==> r.keepAlive == old(r.keepAlive)
        decreases pending
      {
        var r :| r in pending;
        r.Write(data);
        pending := pending - {r};
      }
    }
  }
}
