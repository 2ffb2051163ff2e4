/** The receiving side of the Optolink: bytes, 40 ms silences and the closing of the byte channel. */
module Link {
  import opened Bytes
  import opened Telegram

  datatype LinkEvent = Byte(b: byte) | Silence | Closed

  function BytesOf(evs: seq<LinkEvent>): seq<byte> {
    if evs == [] then []
    else (if evs[0].Byte? then [evs[0].b] else []) + BytesOf(evs[1..])
  }

  function Silences(evs: seq<LinkEvent>): nat {
    if evs == [] then 0
    else (if evs[0].Silence? then 1 else 0) + Silences(evs[1..])
  }

  datatype Collected = Collected(bytes: seq<byte>, err: Option<Error>, rest: seq<LinkEvent>)

  /** Subsequent bytes must follow shortly; the whole sequence has a generous limit of its own. */
  predicate GivesUp(n: nat, received: nat, timeouts: nat) {
    (timeouts > 2 && received > 1) || timeouts > 150 + n
  }

  /**
   * `waitforbytes(n)` for n >= 1, entered with the bytes `a` already received and `t` timeouts counted.
   * A link without further events is silent. The measure is the number of missing bytes plus the
   * number of timeouts still allowed, so one call sees at most n bytes and 151 + n timeouts.
   */
  function CollectFrom(n: nat, link: seq<LinkEvent>, a: seq<byte>, t: nat): (c: Collected)
    requires |a| < n && t <= 150 + n
    ensures c.err == None <==> |c.bytes| == n
    ensures c.err.Some? ==> |c.bytes| < n
    decreases (n - |a|) + (151 + n - t)
  {
    if link == [] || link[0].Silence? then
      var rest := if link == [] then [] else link[1..];
      if GivesUp(n, |a|, t + 1) then Collected(a, Some(TimedOut), rest) else CollectFrom(n, rest, a, t + 1)
    else if link[0].Closed? then
      Collected([], Some(Eof), link)
    else
      var b := a + [link[0].b];
      if |b| == n then Collected(b, None, link[1..]) else CollectFrom(n, link[1..], b, t)
  }

  function Collect(n: nat, link: seq<LinkEvent>): (c: Collected)
    ensures c.err == None ==> |c.bytes| == n
    ensures c.err.Some? ==> |c.bytes| < n
  {
    if n == 0 then Collected([], None, link) else CollectFrom(n, link, [], 0)
  }

  // ------------------------------------------------------------ what it reads

  lemma {:induction false} BytesOfConcat(x: seq<LinkEvent>, y: seq<LinkEvent>)
    ensures BytesOf(x + y) == BytesOf(x) + BytesOf(y)
    ensures Silences(x + y) == Silences(x) + Silences(y)
  {
    if x == [] {
      assert x + y == y;
    } else {
      BytesOfConcat(x[1..], y);
      assert (x + y)[1..] == x[1..] + y;
    }
  }

  /** The part of the link a collection has used up. */
  function Used(link: seq<LinkEvent>, c: Collected): seq<LinkEvent>
    requires |c.rest| <= |link|
  {
    link[..|link| - |c.rest|]
  }

  /** What a collection that was entered with the bytes `a` may have done to the link. */
  ghost predicate Reads(n: nat, link: seq<LinkEvent>, a: seq<byte>, c: Collected) {
    && |c.rest| <= |link| && Used(link, c) + c.rest == link
    && (c.err == None ==> |c.bytes| == n && c.bytes == a + BytesOf(Used(link, c)))
    && (c.err.Some? ==> |c.bytes| < n && (c.bytes == a + BytesOf(Used(link, c)) || (c.err == Some(Eof) && c.bytes == [])))
  }

  lemma {:induction false} CollectFromReads(n: nat, link: seq<LinkEvent>, a: seq<byte>, t: nat)
    requires |a| < n && t <= 150 + n
    ensures Reads(n, link, a, CollectFrom(n, link, a, t))
    decreases (n - |a|) + (151 + n - t)
  {
    var c := CollectFrom(n, link, a, t);
    if link == [] {
      if !GivesUp(n, |a|, t + 1) {
        CollectFromReads(n, [], a, t + 1);
      }
    } else if link[0].Closed? {
      assert Used(link, c) == [];
    } else if if link[0].Silence? then GivesUp(n, |a|, t + 1) else |a| + 1 == n {
      assert Used(link, c) == [link[0]];
      assert [link[0]][1..] == [];
    } else if link[0].Silence? {
      CollectFromReads(n, link[1..], a, t + 1);
      ReadsCons(n, link, a, c);
    } else {
      CollectFromReads(n, link[1..], a + [link[0].b], t);
      ReadsCons(n, link, a, c);
    }
  }

  lemma ReadsCons(n: nat, link: seq<LinkEvent>, a: seq<byte>, c: Collected)
    requires link != []
    requires Reads(n, link[1..], if link[0].Byte? then a + [link[0].b] else a, c)
    ensures Reads(n, link, a, c)
  {
    UsedCons(link, c);
  }

  lemma UsedCons(link: seq<LinkEvent>, c: Collected)
    requires link != [] && |c.rest| < |link|
    ensures Used(link, c) == [link[0]] + Used(link[1..], c)
    ensures BytesOf(Used(link, c)) == (if link[0].Byte? then [link[0].b] else []) + BytesOf(Used(link[1..], c))
  {
    assert Used(link, c)[1..] == Used(link[1..], c);
  }

  /**
   * Byte collection: exactly the next n bytes in order on success, strictly fewer on any error;
   * bytes are dropped only when the channel closes.
   */
  lemma CollectReads(n: nat, link: seq<LinkEvent>)
    ensures var c := Collect(n, link);
            && |c.rest| <= |link| && Used(link, c) + c.rest == link
            && (c.err == None ==> |c.bytes| == n && c.bytes == BytesOf(Used(link, c)))
            && (c.err.Some? ==> |c.bytes| < n && (c.bytes == BytesOf(Used(link, c)) || (c.err == Some(Eof) && c.bytes == [])))
  {
    if n > 0 {
      CollectFromReads(n, link, [], 0);
    } else {
      assert Used(link, Collect(0, link)) == [];
    }
  }

  // --------------------------------------------------------- when it succeeds

  /** Up to the last event nothing is closed, and no silence exhausts the allowance for n bytes. */
  predicate Timely(n: nat, evs: seq<LinkEvent>) {
    forall q :: 0 <= q < |evs| ==> InTime(n, evs, q)
  }

  predicate InTime(n: nat, evs: seq<LinkEvent>, q: nat)
    requires q < |evs|
  {
    && !evs[q].Closed?
    && (evs[q].Silence? ==>
          Silences(evs[..q + 1]) <= 150 + n && (Silences(evs[..q + 1]) <= 2 || |BytesOf(evs[..q])| <= 1))
  }

  /** The first p events bring the n-th byte in time. */
  predicate ArrivesAt(n: nat, link: seq<LinkEvent>, p: nat) {
    && 0 < p <= |link|
    && link[p - 1].Byte? && |BytesOf(link[..p])| == n
    && Timely(n, link[..p])
  }

  lemma PrefixStep(link: seq<LinkEvent>, q: nat)
    requires q < |link|
    ensures BytesOf(link[..q + 1]) == BytesOf(link[..q]) + if link[q].Byte? then [link[q].b] else []
    ensures Silences(link[..q + 1]) == Silences(link[..q]) + if link[q].Silence? then 1 else 0
    ensures link[q..][1..] == link[q + 1..]
  {
    BytesOfConcat(link[..q], [link[q]]);
    assert [link[q]][1..] == [];
    assert link[..q + 1] == link[..q] + [link[q]];
  }

  lemma {:induction false} PrefixMonotone(link: seq<LinkEvent>, q: nat, p: nat)
    requires q <= p <= |link|
    ensures |BytesOf(link[..q])| <= |BytesOf(link[..p])|
    decreases p - q
  {
    if q < p {
      PrefixMonotone(link, q, p - 1);
      PrefixStep(link, p - 1);
    }
  }

  /** The collection that has seen the first q events of the link. */
  function CollectAfter(n: nat, link: seq<LinkEvent>, q: nat): Collected
    requires q <= |link|
    requires Silences(link[..q]) <= 150 + n && |BytesOf(link[..q])| < n
  {
    CollectFrom(n, link[q..], BytesOf(link[..q]), Silences(link[..q]))
  }

  lemma CollectAt(n: nat, link: seq<LinkEvent>, q: nat)
    requires q < |link|
    requires Silences(link[..q]) <= 150 + n && |BytesOf(link[..q])| < n
    ensures link[q].Closed? ==> CollectAfter(n, link, q).err.Some?
    ensures link[q].Silence? && GivesUp(n, |BytesOf(link[..q])|, Silences(link[..q + 1])) ==>
              CollectAfter(n, link, q).err.Some?
    ensures link[q].Silence? && !GivesUp(n, |BytesOf(link[..q])|, Silences(link[..q + 1])) ==>
              Silences(link[..q + 1]) <= 150 + n && |BytesOf(link[..q + 1])| < n &&
              CollectAfter(n, link, q) == CollectAfter(n, link, q + 1)
    ensures link[q].Byte? && |BytesOf(link[..q + 1])| == n ==>
              CollectAfter(n, link, q) == Collected(BytesOf(link[..q + 1]), None, link[q + 1..])
    ensures link[q].Byte? && |BytesOf(link[..q + 1])| < n ==>
              Silences(link[..q + 1]) <= 150 + n && CollectAfter(n, link, q) == CollectAfter(n, link, q + 1)
  {
    PrefixStep(link, q);
    assert link[q..][0] == link[q];
    if link[q].Silence? {
      assert BytesOf(link[..q + 1]) == BytesOf(link[..q]);
    }
  }

  lemma {:induction false} ArrivesCollected(n: nat, link: seq<LinkEvent>, p: nat, q: nat)
    requires ArrivesAt(n, link, p) && q < p
    requires Silences(link[..q]) <= 150 + n && |BytesOf(link[..q])| < n
    ensures CollectAfter(n, link, q) == Collected(BytesOf(link[..p]), None, link[p..])
    decreases p - q
  {
    PrefixStep(link, q);
    CollectAt(n, link, q);
    assert InTime(n, link[..p], q);
    assert link[..p][..q] == link[..q] && link[..p][..q + 1] == link[..q + 1];
    if q + 1 < p {
      PrefixMonotone(link, q + 1, p - 1);
      PrefixStep(link, p - 1);
      ArrivesCollected(n, link, p, q + 1);
    }
  }

  lemma {:induction false} CollectedArrives(n: nat, link: seq<LinkEvent>, q: nat)
    requires q <= |link|
    requires Silences(link[..q]) <= 150 + n && |BytesOf(link[..q])| < n
    requires CollectAfter(n, link, q).err == None
    ensures exists p :: q < p <= |link| && link[p - 1].Byte? && |BytesOf(link[..p])| == n &&
                        forall k :: q <= k < p ==> InTime(n, link, k)
    decreases |link| - q
  {
    if q == |link| {
      CollectFromReads(n, link[q..], BytesOf(link[..q]), Silences(link[..q]));
    } else {
      PrefixStep(link, q);
      CollectAt(n, link, q);
      assert InTime(n, link, q);
      if link[q].Byte? && |BytesOf(link[..q])| + 1 == n {
        assert link[q + 1 - 1].Byte?;
      } else {
        CollectedArrives(n, link, q + 1);
      }
    }
  }

  /** `waitforbytes` succeeds iff the n-th byte arrives before the channel closes and within the allowance. */
  lemma CollectExact(n: nat, link: seq<LinkEvent>)
    requires n > 0
    ensures Collect(n, link).err == None <==> exists p: nat :: ArrivesAt(n, link, p)
  {
    assert link[..0] == [] && link[0..] == link;
    if Collect(n, link).err == None {
      CollectedArrives(n, link, 0);
      var p :| 0 < p <= |link| && link[p - 1].Byte? && |BytesOf(link[..p])| == n &&
               forall k :: 0 <= k < p ==> InTime(n, link, k);
      forall k | 0 <= k < p
        ensures InTime(n, link[..p], k)
      {
        assert InTime(n, link, k);
        assert link[..p][..k] == link[..k] && link[..p][..k + 1] == link[..k + 1];
      }
      assert ArrivesAt(n, link, p);
    }
    if p: nat :| ArrivesAt(n, link, p) {
      ArrivesCollected(n, link, p, 0);
    }
  }

  // ------------------------------------------------------------ prompt answers

  predicate NoneClosed(link: seq<LinkEvent>) {
    forall e :: e in link ==> !e.Closed?
  }

  /** The collection `c`, entered with the bytes `a`, took the next bytes of the link and left the others in order. */
  ghost predicate TakesNext(n: nat, link: seq<LinkEvent>, a: seq<byte>, c: Collected)
    requires |a| <= n <= |a| + |BytesOf(link)|
  {
    && c.err == None && c.bytes == a + BytesOf(link)[..n - |a|]
    && |c.rest| <= |link| && c.rest == link[|link| - |c.rest|..]
    && BytesOf(c.rest) == BytesOf(link)[n - |a|..] && Silences(c.rest) <= Silences(link)
  }

  lemma TakesNextCons(n: nat, link: seq<LinkEvent>, a: seq<byte>, b: byte, c: Collected)
    requires link != [] && link[0] == Byte(b)
    requires |a| + 1 <= n <= |a| + 1 + |BytesOf(link[1..])|
    requires TakesNext(n, link[1..], a + [b], c)
    ensures TakesNext(n, link, a, c)
  {
    var s := BytesOf(link[1..]);
    assert BytesOf(link) == [b] + s;
    assert (a + [b]) + s[..n - |a| - 1] == a + ([b] + s)[..n - |a|];
    assert s[n - |a| - 1..] == ([b] + s)[n - |a|..];
  }

  /** With at most two silences pending, the next n bytes are delivered and the others stay in order. */
  lemma {:induction false} CollectPrompt(n: nat, link: seq<LinkEvent>, a: seq<byte>, t: nat)
    requires |a| < n <= |a| + |BytesOf(link)|
    requires NoneClosed(link) && t + Silences(link) <= 2
    ensures TakesNext(n, link, a, CollectFrom(n, link, a, t))
    decreases |link|
  {
    assert !link[0].Closed?;
    if link[0].Silence? {
      CollectPrompt(n, link[1..], a, t + 1);
    } else {
      var b := link[0].b;
      if |a| + 1 < n {
        CollectPrompt(n, link[1..], a + [b], t);
        TakesNextCons(n, link, a, b, CollectFrom(n, link[1..], a + [b], t));
      } else {
        assert a + [b] + BytesOf(link[1..])[..0] == a + [b];
        TakesNextCons(n, link, a, b, Collected(a + [b], None, link[1..]));
      }
    }
  }

  // ------------------------------------------------------- replies in several pieces

  function Flatten(pieces: seq<seq<byte>>): seq<byte> {
    if pieces == [] then [] else pieces[0] + Flatten(pieces[1..])
  }

  lemma FlattenFew(x: seq<byte>, y: seq<byte>)
    ensures Flatten([x]) == x && Flatten([x, y]) == x + y
  {
    assert [x][1..] == [] && [x, y][1..] == [y];
    assert x + [] == x && y + [] == y;
    assert Flatten([y]) == y + Flatten([]) && Flatten([x, y]) == x + Flatten([y]);
  }

  /** The pieces arrive one after another, each in time for a collection of its own, and nothing else does. */
  ghost predicate Paced(evs: seq<LinkEvent>, pieces: seq<seq<byte>>)
    decreases |pieces|
  {
    if pieces == [] then evs == []
    else
      exists p: nat ::
        ArrivesAt(|pieces[0]|, evs, p) && BytesOf(evs[..p]) == pieces[0] && Paced(evs[p..], pieces[1..])
  }

  lemma ArrivingTaken(n: nat, link: seq<LinkEvent>, p: nat)
    requires ArrivesAt(n, link, p)
    ensures n > 0 && Collect(n, link) == Collected(BytesOf(link[..p]), None, link[p..])
  {
    PrefixStep(link, p - 1);
    assert link[..0] == [] && link[0..] == link;
    ArrivesCollected(n, link, p, 0);
  }

  /** A collection takes exactly its own piece, and the other pieces stay in time: the stream stays aligned. */
  lemma PacedTake(link: seq<LinkEvent>, pieces: seq<seq<byte>>)
    requires pieces != [] && Paced(link, pieces)
    ensures pieces[0] != [] && Collect(|pieces[0]|, link) == Collected(pieces[0], None, Collect(|pieces[0]|, link).rest)
    ensures Paced(Collect(|pieces[0]|, link).rest, pieces[1..])
  {
    var p: nat :| ArrivesAt(|pieces[0]|, link, p) && BytesOf(link[..p]) == pieces[0] && Paced(link[p..], pieces[1..]);
    ArrivingTaken(|pieces[0]|, link, p);
  }

  /** The link carries these bytes, at whatever times, and ends with the last of them. */
  predicate Carrying(link: seq<LinkEvent>, bytes: seq<byte>) {
    BytesOf(link) == bytes && (link != [] ==> link[|link| - 1].Byte?)
  }

  /** One collection per piece succeeds. */
  predicate Collects(link: seq<LinkEvent>, pieces: seq<seq<byte>>)
    decreases |pieces|
  {
    pieces == [] ||
    (var c := Collect(|pieces[0]|, link); c.err == None && Collects(c.rest, pieces[1..]))
  }

  /** A successful collection takes the first piece and leaves the others. */
  lemma CollectsFirst(link: seq<LinkEvent>, pieces: seq<seq<byte>>)
    requires pieces != [] && pieces[0] != [] && Carrying(link, Flatten(pieces))
    requires Collect(|pieces[0]|, link).err == None
    ensures var c := Collect(|pieces[0]|, link);
            && c.bytes == pieces[0] && Carrying(c.rest, Flatten(pieces[1..]))
            && exists p: nat :: ArrivesAt(|pieces[0]|, link, p) && c == Collected(BytesOf(link[..p]), None, link[p..])
  {
    hide Collect, ArrivesAt, Carrying;
    CollectExact(|pieces[0]|, link);
    var p: nat :| ArrivesAt(|pieces[0]|, link, p);
    ArrivingTaken(|pieces[0]|, link, p);
    CarryingSplit(link, pieces[0], Flatten(pieces[1..]), p);
  }

  lemma CarryingSplit(link: seq<LinkEvent>, x: seq<byte>, y: seq<byte>, p: nat)
    requires Carrying(link, x + y) && ArrivesAt(|x|, link, p)
    ensures p <= |link| && BytesOf(link[..p]) == x && Carrying(link[p..], y)
  {
    BytesOfConcat(link[..p], link[p..]);
    assert link == link[..p] + link[p..];
    hide BytesOf, ArrivesAt;
    assert BytesOf(link[..p]) == (x + y)[..|x|] == x;
    assert BytesOf(link[p..]) == (x + y)[|x|..] == y;
  }

  /** Whatever its timing, a reply is collected piece by piece exactly if each piece comes in time. */
  lemma {:induction false} PacedIff(link: seq<LinkEvent>, pieces: seq<seq<byte>>)
    requires Carrying(link, Flatten(pieces)) && [] !in pieces
    ensures Paced(link, pieces) <==> Collects(link, pieces)
    decreases |pieces|
  {
    if pieces == [] {
      CarryingNothing(link);
    } else {
      assert pieces[0] in pieces;
      if Paced(link, pieces) {
        PacedTake(link, pieces);
      }
      var c := Collect(|pieces[0]|, link);
      if c.err == None {
        CollectsFirst(link, pieces);
        PacedIff(c.rest, pieces[1..]);
      }
    }
  }

  lemma LastByteCounts(evs: seq<LinkEvent>)
    requires evs != [] && evs[|evs| - 1].Byte?
    ensures BytesOf(evs) != []
  {
    var n := |evs| - 1;
    BytesOfConcat(evs[..n], [evs[n]]);
    assert evs == evs[..n] + [evs[n]];
  }

  lemma CarryingNothing(link: seq<LinkEvent>)
    requires Carrying(link, [])
    ensures link == []
  {
    if link != [] {
      LastByteCounts(link);
    }
  }

  // --------------------------------------------------------- replies without delay

  function Undelayed(bytes: seq<byte>): seq<LinkEvent> {
    seq(|bytes|, i requires 0 <= i < |bytes| => Byte(bytes[i]))
  }

  lemma {:induction false} UndelayedBytes(bytes: seq<byte>)
    ensures BytesOf(Undelayed(bytes)) == bytes
  {
    if bytes != [] {
      UndelayedBytes(bytes[1..]);
      assert Undelayed(bytes)[1..] == Undelayed(bytes[1..]);
    }
  }

  lemma {:induction false} UndelayedPaced(pieces: seq<seq<byte>>)
    requires [] !in pieces
    ensures Paced(Undelayed(Flatten(pieces)), pieces)
    decreases |pieces|
  {
    if pieces != [] {
      var x, y := pieces[0], Flatten(pieces[1..]);
      assert x in pieces;
      UndelayedPaced(pieces[1..]);
      UndelayedArrives(x, y);
      hide ArrivesAt, Undelayed;
      assert Flatten(pieces) == x + y;
    }
  }

  lemma UndelayedArrives(x: seq<byte>, y: seq<byte>)
    requires x != []
    ensures |x| <= |Undelayed(x + y)| && ArrivesAt(|x|, Undelayed(x + y), |x|)
    ensures BytesOf(Undelayed(x + y)[..|x|]) == x && Undelayed(x + y)[|x|..] == Undelayed(y)
  {
    assert Undelayed(x + y)[..|x|] == Undelayed(x);
    UndelayedBytes(x);
  }
}
