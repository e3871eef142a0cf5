/**
 * The stream and compression part of the handshake: the request headers of `negotiate`, the answer of `TakeOver`,
 * and the negoSet each side ends up with. Header values are taken to arrive as sent.
 */
module Handshake {
  import opened Wrappers
  import opened Bytes
  import opened Frames
  import opened Config
  import opened Decimal
  import opened Allocator

  datatype Nego = Nego(streamable: bool, maxStreams: int, compressable: bool)

  /** Webson-Max-Streams ("" when absent) and the Sec-Websocket-Extensions values. */
  datatype Request = Request(streams: string, extensions: seq<string>)

  datatype Response = Response(streams: string, extensions: string)

  const DEFLATE: string := "permessage-deflate"
  const DEFLATE_OFFER: string := DEFLATE + "; server_no_context_takeover; client_no_context_takeover"

  const NO_EXTRA := Request("", [])

  function ToLower(s: string): (r: string)
    ensures |r| == |s|
  {
    seq(|s|, i requires 0 <= i < |s| => if 'A' <= s[i] <= 'Z' then (s[i] as nat + 32) as char else s[i])
  }

  predicate OccursAt(s: string, part: string, i: nat)
  {
    i + |part| <= |s| && s[i..i + |part|] == part
  }

  ghost predicate Contains(s: string, part: string)
  {
    exists i :: 0 <= i <= |s| && OccursAt(s, part, i)
  }

  function Join(values: seq<string>): (s: string)
  {
    if values == [] then "" else if |values| == 1 then values[0] else values[0] + " " + Join(values[1..])
  }

  /** The server's test, which looks for the name anywhere in the joined values. */
  ghost predicate OffersDeflate(extensions: seq<string>)
  {
    Contains(ToLower(Join(extensions)), DEFLATE)
  }

  /** What the client sends. `extra` stands for the caller's own headers, which the protocol's headers replace. */
  function ClientRequest(c: Settings, extra: Request): (r: Request)
  {
    Request(if c.enableStreams then Itoa(c.maxStreams) else extra.streams,
            if c.enableCompress then [DEFLATE_OFFER] else extra.extensions)
  }

  /** `TakeOver`: its answer and its negoSet, or None when it turns the client away for a bad stream limit. */
  ghost function ServerSide(c: Settings, r: Request): (answer: Option<(Nego, Response)>)
  {
    var compressable := c.enableCompress && OffersDeflate(r.extensions);
    var ext := if compressable then DEFLATE_OFFER else "";
    if c.maxStreams > 0 && r.streams != "" then
      match Atoi(r.streams)
      case None => None
      case Some(n) =>
        if n <= 0 then None
        else
          var m := if n < c.maxStreams then n else c.maxStreams;
          Some((Nego(true, m, compressable), Response(Itoa(m), ext)))
    else Some((Nego(false, c.maxStreams, compressable), Response("", ext)))
  }

  /** `negotiate` from the answer on. */
  function ClientSide(c: Settings, a: Response): (nego: Option<Nego>)
  {
    var compressable := c.enableCompress && a.extensions == DEFLATE_OFFER;
    if c.enableStreams && a.streams != "" then
      match Atoi(a.streams)
      case None => None
      case Some(n) =>
        if n > 0 then Some(Nego(true, if n < c.maxStreams then n else c.maxStreams, compressable))
        else Some(Nego(false, 0, compressable))
    else Some(Nego(false, 0, compressable))
  }

  const STREAMS_HEADER: string := "Webson-Max-Streams"
  const EXTENSIONS_HEADER: string := "Sec-Websocket-Extensions"

  function HeaderOf(headers: map<string, string>, name: string): (v: string)
  {
    if name in headers then headers[name] else ""
  }

  /** strings.Contains, as a search. */
  function FindFrom(s: string, part: string, i: nat): (found: bool)
    requires i <= |s|
    ensures found <==> exists j :: i <= j <= |s| && OccursAt(s, part, j)
    decreases |s| - i
  {
    OccursAt(s, part, i) || (i < |s| && FindFrom(s, part, i + 1))
  }

  function HasDeflate(extensions: seq<string>): (found: bool)
    ensures found <==> OffersDeflate(extensions)
  {
    FindFrom(ToLower(Join(extensions)), DEFLATE, 0)
  }

  /** `TakeOver`, from its settled configuration on: it fills `verified`, the headers of its answer. */
  method TakeOver(c: Settings, r: Request) returns (nego: Option<Nego>, verified: map<string, string>)
    ensures nego.Some? <==> ServerSide(c, r).Some?
    ensures nego.Some? ==>
              ServerSide(c, r).value
              == (nego.value, Response(HeaderOf(verified, STREAMS_HEADER), HeaderOf(verified, EXTENSIONS_HEADER)))
  {
    verified := map[];
    var streamable, maxStreams := false, c.maxStreams;
    if maxStreams > 0 {
      var clientWant := r.streams;
      if clientWant != "" {
        var clientSuggest := Atoi(clientWant);
        if clientSuggest.None? || clientSuggest.value <= 0 {
          return None, map[];
        }
        if clientSuggest.value < maxStreams {
          maxStreams := clientSuggest.value;
        }
        streamable := true;
        verified := verified[STREAMS_HEADER := Itoa(maxStreams)];
      }
    }
    assert STREAMS_HEADER != EXTENSIONS_HEADER by {
      assert |STREAMS_HEADER| == 18 && |EXTENSIONS_HEADER| == 24;
    }
    var compressable := false;
    if c.enableCompress {
      if HasDeflate(r.extensions) {
        compressable := true;
        verified := verified[EXTENSIONS_HEADER := DEFLATE_OFFER];
      }
    }
    nego := Some(Nego(streamable, maxStreams, compressable));
  }

  /** The end of `negotiate`, over the headers it read. */
  method Negotiate(c: Settings, verify: map<string, string>) returns (nego: Option<Nego>)
    ensures nego == ClientSide(c, Response(HeaderOf(verify, STREAMS_HEADER), HeaderOf(verify, EXTENSIONS_HEADER)))
  {
    var found := Nego(false, 0, false);
    if c.enableCompress && HeaderOf(verify, EXTENSIONS_HEADER) == DEFLATE_OFFER {
      found := found.(compressable := true);
    }
    var serverStreams := HeaderOf(verify, STREAMS_HEADER);
    if c.enableStreams && serverStreams != "" {
      var serverWant := Atoi(serverStreams);
      if serverWant.None? {
        return None;
      }
      if serverWant.value > 0 {
        found := found.(streamable := true, maxStreams := c.maxStreams);
        if serverWant.value < found.maxStreams {
          found := found.(maxStreams := serverWant.value);
        }
      }
    }
    nego := Some(found);
  }

  lemma {:induction false} LowerPrefix(s: string, n: nat)
    requires n <= |s|
    ensures ToLower(s)[..n] == ToLower(s[..n])
  {
  }

  lemma {:induction false} Letters()
    ensures var d := DEFLATE;
            && |d| == 18
            && d[0] == 'p' && d[1] == 'e' && d[2] == 'r' && d[3] == 'm' && d[4] == 'e' && d[5] == 's'
            && d[6] == 's' && d[7] == 'a' && d[8] == 'g' && d[9] == 'e' && d[10] == '-' && d[11] == 'd'
            && d[12] == 'e' && d[13] == 'f' && d[14] == 'l' && d[15] == 'a' && d[16] == 't' && d[17] == 'e'
  {
  }

  lemma {:induction false} DeflateIsLower()
    ensures ToLower(DEFLATE) == DEFLATE
  {
    Letters();
  }

  lemma {:induction false} OwnOfferIsSeen()
    ensures OffersDeflate([DEFLATE_OFFER])
  {
    DeflateIsLower();
    LowerPrefix(DEFLATE_OFFER, |DEFLATE|);
    assert DEFLATE_OFFER[..|DEFLATE|] == DEFLATE;
    assert OccursAt(ToLower(DEFLATE_OFFER), DEFLATE, 0);
    assert Join([DEFLATE_OFFER]) == DEFLATE_OFFER;
  }

  lemma {:induction false} NoOfferNotSeen()
    ensures !OffersDeflate([])
  {
    assert Join([]) == "" && ToLower("") == "";
  }

  function Min(a: int, b: int): (m: int)
  {
    if b < a then b else a
  }

  // ---------------------------------------------------------------- what either side does with any headers

  /** The eighteen letters, each in either case, from place i on. */
  predicate SpelledAt(s: string, i: nat)
  {
    && i + 18 <= |s|
    && forall j :: 0 <= j < 18 ==>
         var letter := "permessage-deflate"[j];
         s[i + j] == letter || ('A' <= s[i + j] <= 'Z' && s[i + j] as nat + 32 == letter as nat)
  }

  lemma {:induction false} LowerLetter(c: char, letter: char)
    requires 'a' <= letter <= 'z' || letter == '-'
    ensures (if 'A' <= c <= 'Z' then (c as nat + 32) as char else c) == letter
       <==> c == letter || ('A' <= c <= 'Z' && c as nat + 32 == letter as nat)
  {
  }

  lemma {:induction false} LettersOf(j: nat)
    requires j < 18
    ensures |DEFLATE| == 18 && var letter := "permessage-deflate"[j]; 'a' <= letter <= 'z' || letter == '-'
  {
    Letters();
  }

  lemma {:induction false} SpelledIffOccurs(s: string, i: nat)
    ensures SpelledAt(s, i) <==> OccursAt(ToLower(s), DEFLATE, i)
  {
    LettersOf(0);
    if i + 18 <= |s| {
      var t := ToLower(s)[i..i + 18];
      forall j | 0 <= j < 18
        ensures t[j] == "permessage-deflate"[j]
           <==> var letter := "permessage-deflate"[j];
                s[i + j] == letter || ('A' <= s[i + j] <= 'Z' && s[i + j] as nat + 32 == letter as nat)
      {
        LettersOf(j);
        LowerLetter(s[i + j], "permessage-deflate"[j]);
      }
      assert t == DEFLATE <==> forall j :: 0 <= j < 18 ==> t[j] == "permessage-deflate"[j];
    }
  }

  /** The values of a header, joined by blanks. */
  lemma {:induction false} JoinedByBlanks(a: seq<string>, b: seq<string>, v: string)
    ensures Join([]) == "" && Join([v]) == v
    ensures a != [] && b != [] ==> Join(a + b) == Join(a) + " " + Join(b)
  {
    if |a| == 1 && b != [] {
      assert (a + b)[1..] == b;
    } else if a != [] && b != [] {
      JoinedByBlanks(a[1..], b, v);
      assert (a + b)[1..] == a[1..] + b;
    }
  }

  lemma {:induction false} OffersIffSpelled(extensions: seq<string>)
    ensures OffersDeflate(extensions) <==> exists i :: SpelledAt(Join(extensions), i)
  {
    var s := Join(extensions);
    assert forall i: nat :: SpelledAt(s, i) ==> i <= |s|;
    hide OccursAt, SpelledAt, Join;
    forall i: nat
      ensures SpelledAt(s, i) <==> OccursAt(ToLower(s), DEFLATE, i)
    {
      SpelledIffOccurs(s, i);
    }
  }

  /**
   * What the server answers to any request: it compresses if and only if it may and the eighteen letters stand, in
   * whatever case, anywhere in the extension values; it streams if and only if it may and the client named a limit,
   * then with the smaller of the two; and it turns away a client whose limit is no positive number.
   */
  lemma {:induction false} WhatTheServerAnswers(c: Settings, r: Request)
    ensures ServerSide(c, r).None? <==>
              c.maxStreams > 0 && r.streams != "" && (Atoi(r.streams).None? || Atoi(r.streams).value <= 0)
    ensures ServerSide(c, r).Some? ==>
              var (mine, answer) := ServerSide(c, r).value;
              && (mine.compressable <==> c.enableCompress && exists i :: SpelledAt(Join(r.extensions), i))
              && answer.extensions == (if mine.compressable
                   then "permessage-deflate" + "; server_no_context_takeover; client_no_context_takeover" else "")
              && (mine.streamable <==> c.maxStreams > 0 && r.streams != "")
              && mine.maxStreams <= c.maxStreams && (mine.maxStreams < c.maxStreams ==> mine.streamable)
              && answer.streams == (if mine.streamable then Itoa(mine.maxStreams) else "")
              && (mine.streamable ==>
                    mine.maxStreams == Min(Atoi(r.streams).value, c.maxStreams) && mine.maxStreams >= 1)
  {
    hide Itoa, Atoi, Join, OffersDeflate, SpelledAt;
    OffersIffSpelled(r.extensions);
    var n := if Atoi(r.streams).Some? then Atoi(r.streams).value else 0;
    assert Min(n, c.maxStreams) == if n < c.maxStreams then n else c.maxStreams;
  }

  /** What the client makes of any answer. */
  lemma {:induction false} WhatTheClientTakesUp(c: Settings, a: Response)
    ensures ClientSide(c, a).None? <==> c.enableStreams && a.streams != "" && Atoi(a.streams).None?
    ensures ClientSide(c, a).Some? ==>
              var yours := ClientSide(c, a).value;
              && (yours.compressable <==>
                    && c.enableCompress
                    && a.extensions
                       == "permessage-deflate" + "; server_no_context_takeover; client_no_context_takeover")
              && (yours.streamable <==> c.enableStreams && a.streams != "" && Atoi(a.streams).value > 0)
              && yours.maxStreams == (if yours.streamable then Min(Atoi(a.streams).value, c.maxStreams) else 0)
  {
    hide Atoi;
  }

  /**
   * The two sides agree. With no protocol header overridden, whenever the server takes the client on, the client
   * accepts the answer; both then have the same streamable, the same compressable, and, when streaming, the smaller
   * of the two limits, which is at least 1.
   */
  lemma {:induction false} BothSidesAgree(client: Settings, server: Settings)
    requires Settled(client) && Settled(server) && client.maxStreams >= -(INT64_LIMIT as int)
    requires ServerSide(server, ClientRequest(client, NO_EXTRA)).Some?
    ensures var (mine, answer) := ServerSide(server, ClientRequest(client, NO_EXTRA)).value;
            && ClientSide(client, answer).Some?
            && var yours := ClientSide(client, answer).value;
               && yours.streamable == mine.streamable && yours.compressable == mine.compressable
               && (mine.streamable <==> client.enableStreams && server.enableStreams && server.maxStreams > 0)
               && (mine.compressable <==> client.enableCompress && server.enableCompress)
               && (mine.streamable ==>
                     && yours.maxStreams == mine.maxStreams == Min(client.maxStreams, server.maxStreams)
                     && 1 <= mine.maxStreams <= MAX_STREAMS_IN_THEORY)
  {
    OwnOfferIsSeen();
    NoOfferNotSeen();
    AtoiItoa(client.maxStreams);
    if server.maxStreams > 0 && client.enableStreams && client.maxStreams > 0 {
      AtoiItoa(Min(client.maxStreams, server.maxStreams));
    }
  }

  /** The server turns the client away exactly when it streams and the client offers a limit that is not positive. */
  lemma {:induction false} WhenTheServerRefuses(client: Settings, server: Settings)
    requires Settled(client) && Settled(server) && client.maxStreams >= -(INT64_LIMIT as int)
    ensures ServerSide(server, ClientRequest(client, NO_EXTRA)).None? <==>
              server.maxStreams > 0 && client.enableStreams && client.maxStreams < 0
  {
    AtoiItoa(client.maxStreams);
  }

  /**
   * With headers of the caller's own, agreement fails exactly when they offer something the client's configuration
   * does not back: streams, or compression, that the server is ready to take up.
   */
  lemma {:induction false} OverriddenHeadersCanDisagree(client: Settings, server: Settings, extra: Request)
    requires Settled(client) && Settled(server) && client.maxStreams >= -(INT64_LIMIT as int)
    requires ServerSide(server, ClientRequest(client, extra)).Some?
    ensures var (mine, answer) := ServerSide(server, ClientRequest(client, extra)).value;
            && ClientSide(client, answer).Some?
            && var yours := ClientSide(client, answer).value;
               && (yours.streamable != mine.streamable <==>
                     !client.enableStreams && extra.streams != "" && server.maxStreams > 0)
               && (yours.compressable != mine.compressable <==>
                     && !client.enableCompress && server.enableCompress
                     && exists i :: SpelledAt(Join(extra.extensions), i))
  {
    hide SpelledAt, Join, OffersDeflate;
    OwnOfferIsSeen();
    OffersIffSpelled(extra.extensions);
    AtoiItoa(client.maxStreams);
    var request := ClientRequest(client, extra);
    if server.maxStreams > 0 && request.streams != "" {
      AtoiItoa(Min(Atoi(request.streams).value, server.maxStreams));
    }
  }

  /** One instance: a client without streams whose own headers ask for them. */
  lemma {:induction false} OverriddenHeadersExample()
    ensures var client := Settings(false, 0, DEFAULT_CHUNK_SIZE, DEFAULT_BUFFER_SIZE, false, None);
            var server := client.(enableStreams := true, maxStreams := DEFAULT_MAX_STREAMS);
            var request := ClientRequest(client, Request(Itoa(4), []));
            && Settled(client) && Settled(server) && ServerSide(server, request).Some?
            && var (mine, answer) := ServerSide(server, request).value;
               mine == Nego(true, 4, false) && ClientSide(client, answer) == Some(Nego(false, 0, false))
  {
    AtoiItoa(4);
  }

  // ---------------------------------------------------------------- what the agreement is for

  /** The options `patchMsg` gives a message: what is negotiated, for data messages only; clients mask. */
  predicate Assembled(f: Frame, masked: bool, nego: Nego, isClient: bool)
  {
    && f.compressed == (nego.compressable && !IsControl(f.op))
    && f.stream == (nego.streamable && !IsControl(f.op))
    && masked == isClient
  }

  /** Message types 1 to 15; control frames are final and carry at most 125 bytes. */
  predicate Legal(f: Frame)
  {
    1 <= f.op < 16 && (IsControl(f.op) ==> f.fin && |f.payload| <= 125)
  }

  predicate Hears(peer: Peer, nego: Nego, isClient: bool)
  {
    peer.streamable == nego.streamable && peer.compressable == nego.compressable && peer.fromClient == !isClient
  }

  /** After an agreed handshake every legal frame either side assembles passes the other's `parseMeta`. */
  lemma {:induction false} LegalFramesPass(client: Settings, server: Settings, f: Frame, masked: bool,
                                           fromClient: bool, peer: Peer)
    requires Settled(client) && Settled(server) && client.maxStreams >= -(INT64_LIMIT as int)
    requires ServerSide(server, ClientRequest(client, NO_EXTRA)).Some?
    requires var (mine, answer) := ServerSide(server, ClientRequest(client, NO_EXTRA)).value;
             ClientSide(client, answer).Some? ==>
               var yours := ClientSide(client, answer).value;
               if fromClient then Assembled(f, masked, yours, true) && Hears(peer, mine, false)
               else Assembled(f, masked, mine, false) && Hears(peer, yours, true)
    requires Sendable(f) && Legal(f)
    ensures ParseMeta(Meta0(f), Meta1(|Body(f)|, masked), peer) == Parsed(OwnMeta(f, masked))
  {
    hide ServerSide, ClientSide, ParseMeta, OwnMeta;
    BothSidesAgree(client, server);
    MetaRoundTrip(f, masked, peer);
  }

  /**
   * The allocator is given the configured limit, not the negotiated one: the ids it hands out stay within the
   * negotiated limit exactly when this side's limit was the smaller.
   */
  lemma {:induction false} IdsWithinNegotiatedLimit(config: nat, negotiated: nat)
    requires 1 <= negotiated && 1 <= config
    ensures (forall last: nat, inUse: set<nat> | last <= config && Search(last, inUse, config).Some? ::
               Search(last, inUse, config).value <= negotiated)
       <==> config <= negotiated
  {
    if config <= negotiated {
      forall last: nat, inUse: set<nat> | last <= config && Search(last, inUse, config).Some?
        ensures Search(last, inUse, config).value <= negotiated
      {
        SearchIsExact(last, inUse, config);
      }
    } else {
      assert Search(config - 1, {}, config) == Some(config);
    }
  }
}
