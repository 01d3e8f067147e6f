/** The decisions the request handlers `index`, `add_contact` and `search` take, and the
    handlers themselves over an explicitly passed contact list. */
module Routes {
  import opened Contacts
  import opened LinkedStore

  /** A request parameter: absent, or present with a string value. */
  datatype Option<T> = None | Some(value: T)

  /** Python truthiness of a form value: present and not the empty string. */
  predicate Truthy(field: Option<string>) {
    field.Some? && field.value != ""
  }

  /** `request.args.get('search', '').lower()`: a missing parameter reads as "". */
  function QueryOf(arg: Option<string>): (q: string)
    ensures arg.None? ==> q == ""
    ensures arg.Some? ==> |q| == |arg.value|
    ensures arg.Some? ==> forall i :: 0 <= i < |q| ==> q[i] == LowerChar(arg.value[i])
    ensures !HasUpper(q)
  {
    LowerHasNoUpper(if arg.Some? then arg.value else "");
    Lower(if arg.Some? then arg.value else "")
  }

  /** The contact list after `add_contact`: a new contact `{name, email}` is appended exactly
      when both form fields are present and non-empty, and the list is left alone otherwise. */
  function AfterAdd(all: seq<Data>, name: Option<string>, email: Option<string>): (r: seq<Data>)
    ensures |r| == |all| + 1 <==> Truthy(name) && Truthy(email)
    ensures |all| <= |r| <= |all| + 1 && r[..|all|] == all
    ensures Truthy(name) && Truthy(email) ==> r[|all|] == Contact(name.value, email.value)
  {
    if Truthy(name) && Truthy(email) then all + [Contact(name.value, email.value)] else all
  }

  /** The contacts the main page shows for a lower-cased query: everything when the query is
      empty, and otherwise the matching contacts. */
  function IndexShown(all: seq<Data>, query: string): (r: seq<Data>)
    ensures query == "" ==> r == all
    ensures query != "" ==> forall x :: x in r <==> x in all && Matches(query, x)
  {
    if query != "" then Filter(query, all) else all
  }

  /** The contacts the search page shows: nothing for an empty query, and otherwise the
      matching contacts. */
  function SearchShown(all: seq<Data>, query: string): (r: seq<Data>)
    ensures query == "" ==> r == []
    ensures forall x :: x in r <==> query != "" && x in all && Matches(query, x)
  {
    if query != "" then Filter(query, all) else []
  }

  /** The two pages agree on every non-empty query and differ only on the empty one, where the
      main page lists everything and the search page nothing. */
  lemma PagesAgreeOnNonEmptyQuery(all: seq<Data>, query: string)
    ensures query != "" ==> IndexShown(all, query) == SearchShown(all, query)
    ensures query == "" ==> IndexShown(all, query) == all && SearchShown(all, query) == []
  {
  }

  /** A contact just added is found again by searching for its email, in any letter case:
      `e` is any spelling of the email that lower-cases to the same string. */
  lemma AddedContactFoundByEmail(all: seq<Data>, name: Option<string>, email: Option<string>, e: string)
    requires Truthy(name) && Truthy(email)
    requires Lower(e) == Lower(email.value)
    ensures Contact(name.value, email.value) in SearchShown(AfterAdd(all, name, email), QueryOf(Some(e)))
  {
    var q := QueryOf(Some(e));
    assert OccursAt(q, Lower(email.value), 0);
    ContainsIsSubstring(q, Lower(email.value));
  }

  /** The `index` handler: reads the whole list, then searches it only when the query is
      non-empty. Returns what the page shows, the full list beside it, and the query. */
  method Index(contacts: LinkedList, searchArg: Option<string>)
    returns (shown: seq<Data>, allContacts: seq<Data>, query: string)
    requires contacts.Valid()
    ensures query == QueryOf(searchArg)
    ensures allContacts == contacts.contents
    ensures shown == IndexShown(contacts.contents, query)
  {
    var raw := if searchArg.Some? then searchArg.value else "";
    query := Lower(raw);
    allContacts := contacts.ToList();
    shown := allContacts;
    if query != "" {
      shown := contacts.Search(query);
    }
  }

  /** The `add_contact` handler: appends `{name, email}` when both are non-empty. */
  method AddContact(contacts: LinkedList, name: Option<string>, email: Option<string>)
    requires contacts.Valid()
    modifies contacts.Repr
    ensures contacts.Valid() && fresh(contacts.Repr - old(contacts.Repr))
    ensures contacts.contents == AfterAdd(old(contacts.contents), name, email)
  {
    if name.Some? && name.value != "" && email.Some? && email.value != "" {
      contacts.Append(Contact(name.value, email.value));
    }
  }

  /** The `search` handler: searches only when the query is non-empty, and also returns the
      full list for the page. */
  method Search(contacts: LinkedList, searchArg: Option<string>)
    returns (shown: seq<Data>, allContacts: seq<Data>, query: string)
    requires contacts.Valid()
    ensures query == QueryOf(searchArg)
    ensures allContacts == contacts.contents
    ensures shown == SearchShown(contacts.contents, query)
  {
    var raw := if searchArg.Some? then searchArg.value else "";
    query := Lower(raw);
    shown := [];
    if query != "" {
      shown := contacts.Search(query);
    }
    allContacts := contacts.ToList();
  }

  /** The ten sample contacts the application starts with. */
  const InitialContacts: seq<Data> := [
    Contact("John Smith", "john.smith@email.com"),
    Contact("Sarah Johnson", "sarah.johnson@email.com"),
    Contact("Michael Brown", "mbrown@email.com"),
    Contact("Emily Davis", "emily.davis@email.com"),
    Contact("David Wilson", "d.wilson@email.com"),
    Contact("Jessica Martinez", "j.martinez@email.com"),
    Contact("Christopher Lee", "c.lee@email.com"),
    Contact("Amanda Taylor", "amanda.t@email.com"),
    Contact("Ryan Anderson", "ryananderson@email.com"),
    Contact("Nicole Garcia", "nicole.garcia@email.com")
  ]

  /** Start-up: an empty list and one append per sample contact, in order. */
  method SeedContacts() returns (contacts: LinkedList)
    ensures contacts.Valid() && fresh(contacts.Repr)
    ensures contacts.contents == InitialContacts && |contacts.contents| == 10
  {
    contacts := new LinkedList();
    for k := 0 to |InitialContacts|
      invariant contacts.Valid() && fresh(contacts.Repr)
      invariant contacts.contents == InitialContacts[..k]
    {
      contacts.Append(InitialContacts[k]);
      assert InitialContacts[..k + 1] == InitialContacts[..k] + [InitialContacts[k]];
    }
  }
}
