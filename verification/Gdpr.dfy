/** Access and erasure requests, processed one at a time in the background. */
module Gdpr {
  import opened Wrappers
  import opened Tables
  import opened TenantOps

  predicate Open(s: Store, q: RequestId) {
    q in s.requests && s.requests[q].status in {RequestPending, RequestRunning}
  }

  function WithStatus(s: Store, q: RequestId, status: RequestStatus): Store
    requires q in s.requests
  {
    s.(requests := s.requests[q := s.requests[q].(status := status)])
  }

  /** A new request about `c`; that `c` had a row was seen in an earlier transaction. */
  function WithRequest(s: Store, q: RequestId, c: Id, kind: RequestKind): Store {
    s.(requests := s.requests[q := Request(Some(c), None, kind, RequestPending, None)])
  }

  /** First step of processing: an open request is claimed, any other is left alone. */
  function Claim(s: Store, q: RequestId): Store {
    if Open(s, q) then WithStatus(s, q, RequestRunning) else s
  }

  /** The rest: the export document is written under `doc`, or the contact is erased. */
  function Finish(s: Store, q: RequestId, subject: string, doc: string): Store {
    if !Open(s, q) then s
    else
      var r := s.requests[q];
      match r.kind
      case Export =>
        if r.contact.Some? && r.contact.value in s.contacts then
          s.(requests := s.requests[q := r.(status := RequestDone, result := Some(doc))])
        else WithStatus(s, q, RequestFailed)
      case Forget =>
        if r.contact.Some? then Erase(s, q, r.contact.value, subject) else WithStatus(s, q, RequestDone)
  }

  function Process(s: Store, q: RequestId, subject: string, doc: string): Store {
    Finish(Claim(s, q), q, subject, doc)
  }

  /** Relational rows, identity links and requests are no concern of the invariant. */
  lemma SideTables(s: Store, t: Store)
    requires Consistent(s) && t == s.(relational := t.relational, links := t.links, requests := t.requests)
    ensures Consistent(t)
  {
  }

  lemma ClaimKeepsConsistent(s: Store, q: RequestId)
    requires Consistent(s)
    ensures Consistent(Claim(s, q))
  {
    SideTables(s, Claim(s, q));
  }

  lemma FinishKeepsConsistent(s: Store, q: RequestId, subject: string, doc: string)
    requires Consistent(s)
    ensures Consistent(Finish(s, q, subject, doc))
  {
    if Open(s, q) && s.requests[q].kind == Forget && s.requests[q].contact.Some? {
      EraseKeepsConsistent(s, q, s.requests[q].contact.value, subject);
    } else {
      SideTables(s, Finish(s, q, subject, doc));
    }
  }

  lemma ProcessKeepsConsistent(s: Store, q: RequestId, subject: string, doc: string)
    requires Consistent(s)
    ensures Consistent(Process(s, q, subject, doc))
  {
    ClaimKeepsConsistent(s, q);
    FinishKeepsConsistent(Claim(s, q), q, subject, doc);
  }

  lemma EraseKeepsUnnamed(s: Store, q: RequestId, d: Id, subject: string, c: Id)
    requires Unnamed(s, c) && q in s.requests
    ensures Unnamed(Erase(s, q, d, subject), c)
  {
  }

  lemma StatusKeepsUnnamed(s: Store, q: RequestId, r: Request, c: Id)
    requires Unnamed(s, c) && q in s.requests && r.contact == s.requests[q].contact
    ensures Unnamed(s.(requests := s.requests[q := r]), c)
  {
  }

  /** Processing a request about others neither names `c` nor touches a row of it. */
  lemma ProcessKeepsUnnamed(s: Store, q: RequestId, subject: string, doc: string, c: Id)
    requires Unnamed(s, c)
    ensures Unnamed(Process(s, q, subject, doc), c)
    ensures forall r: RelationalRow :: r.contact == c ==>
      (r in Process(s, q, subject, doc).relational <==> r in s.relational)
  {
    if Open(s, q) {
      var t := Claim(s, q);
      StatusKeepsUnnamed(s, q, t.requests[q], c);
      var u := Process(s, q, subject, doc);
      if t.requests[q].kind == Forget && t.requests[q].contact.Some? {
        EraseKeepsUnnamed(t, q, t.requests[q].contact.value, subject, c);
      } else {
        assert u == t.(requests := t.requests[q := u.requests[q]]);
        StatusKeepsUnnamed(t, q, u.requests[q], c);
      }
    }
  }

  lemma ProcessForgets(s: Store, q: RequestId, c: Id, subject: string, doc: string)
    requires Open(s, q) && s.requests[q].kind == Forget && s.requests[q].contact == Some(c)
    ensures Erased(Process(s, q, subject, doc), c)
  {
    assert Process(s, q, subject, doc) == Erase(Claim(s, q), q, c, subject);
  }

  /**
   A restart is safe wherever it strikes: claimed but unfinished, the request ends as if there had
   been no restart; finished, processing it again changes nothing.
   */
  lemma RestartIsSafe(s: Store, q: RequestId, subject: string, doc: string)
    ensures Process(Claim(s, q), q, subject, doc) == Process(s, q, subject, doc)
    ensures Process(Process(s, q, subject, doc), q, subject, doc) == Process(s, q, subject, doc)
  {
    ClaimTwice(s, q);
    FinishCloses(Claim(s, q), q, subject, doc);
  }

  lemma ClaimTwice(s: Store, q: RequestId)
    ensures Claim(Claim(s, q), q) == Claim(s, q)
  {
    if Open(s, q) {
      assert Claim(Claim(s, q), q).requests == Claim(s, q).requests;
    }
  }

  lemma FinishCloses(t: Store, q: RequestId, subject: string, doc: string)
    ensures !Open(Finish(t, q, subject, doc), q)
  {
  }

  /** Erasing `c` takes it off every request about it that is still queued. */
  lemma ForgetUnlinks(s: Store, q: RequestId, c: Id, subject: string, doc: string, other: RequestId)
    requires Open(s, q) && s.requests[q].kind == Forget && s.requests[q].contact == Some(c)
    requires other != q && Open(s, other) && s.requests[other].contact == Some(c)
    ensures var t := Process(s, q, subject, doc);
      && Erased(t, c) && t.requests[q].status == RequestDone
      && Open(t, other)
      && t.requests[other] == s.requests[other].(contact := None, subject := Some(subject), result := None)
  {
    assert Process(s, q, subject, doc) == Erase(Claim(s, q), q, c, subject);
  }

  /** A queued request without a contact ends without any data: an export fails, an erasure has nothing to do. */
  lemma UnlinkedEnds(t: Store, q: RequestId, subject: string, doc: string)
    requires Open(t, q) && t.requests[q].contact.None?
    ensures var u := Process(t, q, subject, doc);
      && u.requests[q] == t.requests[q].(status := if t.requests[q].kind == Export then RequestFailed else RequestDone)
      && u == t.(requests := u.requests)
  {
  }

  /** Once `c` is forgotten, a queued export of it fails and a queued erasure of it is done with no more changes. */
  lemma QueuedAfterForget(
      s: Store, q: RequestId, c: Id, subject: string, doc: string, other: RequestId, t: Store, u: Store)
    requires Open(s, q) && s.requests[q].kind == Forget && s.requests[q].contact == Some(c)
    requires other != q && Open(s, other) && s.requests[other].contact == Some(c)
    requires t == Process(s, q, subject, doc) && u == Process(t, other, subject, doc)
    ensures other in u.requests && u == t.(requests := u.requests)
    ensures u.requests[other].status == if s.requests[other].kind == Export then RequestFailed else RequestDone
    ensures u.requests[other].contact.None? && u.requests[other].result.None?
  {
    ForgetUnlinks(s, q, c, subject, doc, other);
    UnlinkedEnds(t, other, subject, doc);
  }

  /** Erasure also reaches the documents of earlier exports of the contact. */
  function StaleDocuments(s: Store, c: Id): set<string> {
    set q | q in s.requests && s.requests[q].contact == Some(c) && s.requests[q].result.Some? ::
      s.requests[q].result.value
  }

  lemma NoDocumentLeft(s: Store, q: RequestId, c: Id, subject: string, doc: string)
    requires Open(s, q) && s.requests[q].kind == Forget && s.requests[q].contact == Some(c)
    ensures StaleDocuments(Process(s, q, subject, doc), c) == {}
    ensures forall x :: x in s.requests && s.requests[x].contact == Some(c) ==>
      Process(s, q, subject, doc).requests[x].result.None?
  {
  }
}
