/** The tenant's tables, updated in place. */
module Database {
  import opened Tables
  import opened FieldValues

  class Tenant {
    var contacts: map<Id, Contact>
    var uniq: map<(nat, string), Id>
    var fields: map<nat, FieldDef>
    var nextField: nat
    var lists: set<ListId>
    var members: set<(ListId, Id)>
    var consents: seq<Consent>
    var events: seq<Event>
    var relational: set<RelationalRow>
    var links: map<string, Id>
    var requests: map<RequestId, Request>

    constructor (s: Store)
      ensures State() == s
    {
      contacts, uniq, fields, nextField := s.contacts, s.uniq, s.fields, s.nextField;
      lists, members, consents, events := s.lists, s.members, s.consents, s.events;
      relational, links, requests := s.relational, s.links, s.requests;
    }

    function State(): Store
      reads this
    {
      Store(contacts, uniq, fields, nextField, lists, members, consents, events, relational, links, requests)
    }
  }
}
