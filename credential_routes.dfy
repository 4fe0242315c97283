/** The `/api/credentials` handlers as operations of an owner-scoped store:
    a table of credential records keyed by id, and an explicit requester id
    standing for the user the token middleware authenticated. Every lookup
    filters by id AND owner, so a record of another user is indistinguishable
    from a missing one. */
module CredentialRoutes {
  import opened Common
  import opened JsStrings
  import opened CredentialModel

  type CredentialId = nat

  /** The fields a POST or PUT body may carry; `None` is an omitted field. */
  datatype Body = Body(
    site: Option<string>,
    username: Option<string>,
    password: Option<string>,
    category: Option<string>,
    notes: Option<string>)

  /** An element of the list reply: the document without `encryptedPassword`. */
  datatype ListEntry = ListEntry(
    id: CredentialId,
    owner: UserId,
    site: string,
    username: string,
    category: Category,
    notes: Option<string>,
    createdAt: int,
    updatedAt: int)

  /** The reply of create and update: no password field of any kind. */
  datatype CredentialView = CredentialView(
    id: CredentialId,
    site: string,
    username: string,
    category: Category,
    notes: Option<string>,
    createdAt: int,
    updatedAt: int)

  /** The reply of the single-record fetch, with the decrypted password. */
  datatype Detail = Detail(
    id: CredentialId,
    site: string,
    username: string,
    password: string,
    category: Category,
    notes: Option<string>,
    createdAt: int,
    updatedAt: int)

  function EntryOf(id: CredentialId, c: Credential): (e: ListEntry)
  {
    ListEntry(id, c.owner, c.site, c.username, c.category, c.notes, c.createdAt, c.updatedAt)
  }

  function ViewOf(id: CredentialId, c: Credential): (v: CredentialView)
  {
    CredentialView(id, c.site, c.username, c.category, c.notes, c.createdAt, c.updatedAt)
  }

  function DetailOf(id: CredentialId, c: Credential, password: string): (v: Detail)
  {
    Detail(id, c.site, c.username, password, c.category, c.notes, c.createdAt, c.updatedAt)
  }

  const NOT_FOUND := "Credential not found"
  const MISSING_FIELDS := "Site, username, and password are required"
  const DECRYPT_ERROR := "Error decrypting password"
  const SERVER_ERROR := "Server error"
  const DELETED := "Credential deleted successfully"

  // ---------------------------------------------------------------------
  // The list order: `sort({ createdAt: -1 })`
  // ---------------------------------------------------------------------

  /** `a` may be listed before `b`: it is newer, or equally old. Equal
      timestamps are ordered by id so that the listing is a function; the
      query itself leaves their order open. */
  predicate ListedBefore(m: map<CredentialId, Credential>, a: CredentialId, b: CredentialId)
    requires a in m && b in m
  {
    m[a].createdAt >= m[b].createdAt && (m[a].createdAt == m[b].createdAt ==> a <= b)
  }

  /** Listing order is transitive. */
  lemma ListedBeforeTransitive(m: map<CredentialId, Credential>, a: CredentialId, b: CredentialId, c: CredentialId)
    requires a in m && b in m && c in m
    requires ListedBefore(m, a, b) && ListedBefore(m, b, c)
    ensures ListedBefore(m, a, c)
  {
  }

  /** `x` may be listed before every record of `ids`. */
  predicate ListedFirst(m: map<CredentialId, Credential>, ids: set<CredentialId>, x: CredentialId)
    requires ids <= m.Keys
  {
    x in ids && forall y :: y in ids ==> ListedBefore(m, x, y)
  }

  /** Every non-empty set of records has one that may be listed before all
      the others. */
  lemma {:induction false} FirstInListOrderExists(m: map<CredentialId, Credential>, ids: set<CredentialId>)
    requires ids != {} && ids <= m.Keys
    ensures exists x :: ListedFirst(m, ids, x)
    decreases ids
  {
    var x :| x in ids;
    var rest := ids - {x};
    if rest == {} {
      assert ids == rest + {x};
      assert ListedFirst(m, ids, x);
    } else {
      FirstInListOrderExists(m, rest);
      var y :| ListedFirst(m, rest, y);
      var first := if ListedBefore(m, x, y) then x else y;
      forall z | z in ids ensures ListedBefore(m, first, z) {
        if z != x {
          assert z in rest;
          if first == x {
            ListedBeforeTransitive(m, x, y, z);
          }
        }
      }
      assert ListedFirst(m, ids, first);
    }
  }

  /** The ids of a set of records, newest first, each exactly once. */
  function ListOrder(m: map<CredentialId, Credential>, ids: set<CredentialId>): (r: seq<CredentialId>)
    requires ids <= m.Keys
    ensures forall i :: 0 <= i < |r| ==> r[i] in ids
    ensures forall x :: x in ids ==> x in r
    ensures forall i, j :: 0 <= i < j < |r| ==> r[i] != r[j] && ListedBefore(m, r[i], r[j])
    decreases ids
  {
    if ids == {} then []
    else
      FirstInListOrderExists(m, ids);
      var x :| ListedFirst(m, ids, x);
      [x] + ListOrder(m, ids - {x})
  }

  /** One list entry per id, in the order of the ids. */
  function EntriesOf(m: map<CredentialId, Credential>, ids: seq<CredentialId>): (r: seq<ListEntry>)
    requires forall i :: 0 <= i < |ids| ==> ids[i] in m
    ensures |r| == |ids|
    ensures forall i :: 0 <= i < |r| ==> r[i] == EntryOf(ids[i], m[ids[i]])
  {
    if ids == [] then [] else [EntryOf(ids[0], m[ids[0]])] + EntriesOf(m, ids[1..])
  }

  /** Entries made one per id from the requester's ids in listing order
      form the reply of GET /. */
  lemma EntriesListing(m: map<CredentialId, Credential>, requester: UserId,
                       ids: seq<CredentialId>, entries: seq<ListEntry>)
    requires forall i :: 0 <= i < |ids| ==> ids[i] in m && m[ids[i]].owner == requester
    requires forall id :: OwnedBy(m, requester, id) ==> id in ids
    requires forall i, j :: 0 <= i < j < |ids| ==> ids[i] != ids[j] && ListedBefore(m, ids[i], ids[j])
    requires |entries| == |ids|
    requires forall i :: 0 <= i < |entries| ==> entries[i] == EntryOf(ids[i], m[ids[i]])
    ensures forall i :: 0 <= i < |entries| ==>
      OwnedBy(m, requester, entries[i].id) && entries[i] == EntryOf(entries[i].id, m[entries[i].id])
    ensures forall id :: OwnedBy(m, requester, id) ==> exists i :: 0 <= i < |entries| && entries[i].id == id
    ensures forall i, j :: 0 <= i < j < |entries| ==>
      entries[i].id != entries[j].id && entries[i].createdAt >= entries[j].createdAt
  {
    forall id | OwnedBy(m, requester, id) ensures exists i :: 0 <= i < |entries| && entries[i].id == id {
      var k :| 0 <= k < |ids| && ids[k] == id;
      assert entries[k].id == id;
    }
  }

  /** The records of `m` owned by `requester`. */
  predicate OwnedBy(m: map<CredentialId, Credential>, requester: UserId, id: CredentialId)
  {
    id in m && m[id].owner == requester
  }

  /** The reply of GET / over the table `m`: every record of the requester
      and no other, each once, newest first, without the encrypted password. */
  function Listing(m: map<CredentialId, Credential>, requester: UserId): (r: seq<ListEntry>)
    ensures forall i :: 0 <= i < |r| ==>
      OwnedBy(m, requester, r[i].id) && r[i] == EntryOf(r[i].id, m[r[i].id])
    ensures forall id :: OwnedBy(m, requester, id) ==> exists i :: 0 <= i < |r| && r[i].id == id
    ensures forall i, j :: 0 <= i < j < |r| ==> r[i].id != r[j].id && r[i].createdAt >= r[j].createdAt
  {
    var ids := ListOrder(m, set id | id in m && m[id].owner == requester);
    var entries := EntriesOf(m, ids);
    EntriesListing(m, requester, ids, entries);
    entries
  }


  // ---------------------------------------------------------------------
  // The record a POST / creates
  // ---------------------------------------------------------------------

  /** Saving a new document: it is stored exactly when site and username
      are not all white space and the category is in the enumeration, and
      then it holds the trimmed fields, the given envelope and the time. */
  lemma SaveNew(owner: UserId, site: string, username: string, envelope: string,
                category: string, notes: Option<string>, now: int)
    requires envelope != []
    ensures var r := Save(NewDocument(owner, site, username, envelope, Some(category), notes, now), now);
      && (r.Success? <==> !AllWhiteSpace(site) && !AllWhiteSpace(username) && ParseCategory(category).Some?)
      && (r.Success? ==>
            && Stored(r.value)
            && r.value.owner == owner && r.value.encryptedPassword == envelope
            && r.value.site == Trim(site) && r.value.username == Trim(username)
            && ParseCategory(category) == Some(r.value.category)
            && r.value.notes == (if notes.Some? then Some(Trim(notes.value)) else None)
            && r.value.createdAt == now && r.value.updatedAt == now)
  {
    TrimEmptyIff(site);
    TrimEmptyIff(username);
    var r := Save(NewDocument(owner, site, username, envelope, Some(category), notes, now), now);
    if r.Success? {
      CategoryNameRoundTrip(r.value.category);
    }
  }

  /** Lines 77-88 of the create handler, once the required fields are known
      to be truthy: encrypt the password, build the document with the
      requester as owner and `category || 'general'`, save it. It fails when
      the key is unusable, when site or username is only white space (the
      `trim` setter empties it and `required` rejects it) or when the
      category is not in the enumeration. */
  function CreateRecord(c: Cipher, secret: string, requester: UserId, body: Body, iv: Iv, now: int)
    : (r: Result<Credential>)
    requires Truthy(body.site) && Truthy(body.username) && Truthy(body.password)
    ensures r.Success? <==>
      && KeyUsable(GetKey(secret))
      && !AllWhiteSpace(body.site.value) && !AllWhiteSpace(body.username.value)
      && (Truthy(body.category) ==> ParseCategory(body.category.value).Some?)
    ensures r.Success? ==>
      && Stored(r.value)
      && r.value.owner == requester
      && r.value.site == Trim(body.site.value)
      && r.value.username == Trim(body.username.value)
      && (Truthy(body.category) ==> ParseCategory(body.category.value) == Some(r.value.category))
      && (!Truthy(body.category) ==> r.value.category == General)
      && r.value.notes == (if body.notes.Some? then Some(Trim(body.notes.value)) else None)
      && r.value.createdAt == now && r.value.updatedAt == now
      && r.value.encryptedPassword == EncryptPassword(c, secret, iv, body.password.value).value
    ensures r.Success? && CbcLaws(c) ==>
      DecryptPassword(c, secret, r.value.encryptedPassword) == Some(body.password.value)
  {
    var encrypted := EncryptPassword(c, secret, iv, body.password.value);
    if encrypted.Failure? then Failure(encrypted.error)
    else
      var category := if Truthy(body.category) then body.category.value else "general";
      SaveNew(requester, body.site.value, body.username.value, encrypted.value, category, body.notes, now);
      EnvelopeRoundTrip(c, secret, iv, body.password.value);
      Save(NewDocument(requester, body.site.value, body.username.value, encrypted.value,
                       Some(category), body.notes, now), now)
  }

  // ---------------------------------------------------------------------
  // The partial update of PUT /:id
  // ---------------------------------------------------------------------

  /** The assignments of the update handler on a loaded document: site,
      username and category only from truthy values, the envelope only when
      a new one was made, notes whenever the body carries them (so `""`
      clears them); the `trim` setters run on what is assigned. */
  function Patch(d: Document, body: Body, envelope: Option<string>): (p: Document)
    ensures p.owner == d.owner && p.createdAt == d.createdAt && p.updatedAt == d.updatedAt
    ensures !Truthy(body.site) ==> p.site == d.site
    ensures !Truthy(body.username) ==> p.username == d.username
    ensures envelope.None? ==> p.encryptedPassword == d.encryptedPassword
    ensures !Truthy(body.category) ==> p.category == d.category
    ensures body.notes.None? ==> p.notes == d.notes
    ensures Truthy(body.site) ==> p.site == Trim(body.site.value)
    ensures Truthy(body.username) ==> p.username == Trim(body.username.value)
    ensures envelope.Some? ==> p.encryptedPassword == envelope.value
    ensures Truthy(body.category) ==> p.category == body.category.value
    ensures body.notes.Some? ==> p.notes == Some(Trim(body.notes.value))
  {
    d.(site := if Truthy(body.site) then Trim(body.site.value) else d.site,
       username := if Truthy(body.username) then Trim(body.username.value) else d.username,
       encryptedPassword := if envelope.Some? then envelope.value else d.encryptedPassword,
       category := if Truthy(body.category) then body.category.value else d.category,
       notes := if body.notes.Some? then Some(Trim(body.notes.value)) else d.notes)
  }

  /** Saving a patched stored record: it is stored exactly when each field
      the body sets is valid, and then it holds the patched fields with the
      same owner and creation time. */
  lemma SavePatch(was: Credential, body: Body, envelope: Option<string>, now: int)
    requires Stored(was)
    requires envelope.Some? ==> envelope.value != []
    ensures var r := Save(Patch(DocumentOf(was), body, envelope), now);
      && (r.Success? <==>
            && (Truthy(body.site) ==> !AllWhiteSpace(body.site.value))
            && (Truthy(body.username) ==> !AllWhiteSpace(body.username.value))
            && (Truthy(body.category) ==> ParseCategory(body.category.value).Some?))
      && (r.Success? ==>
            && Stored(r.value)
            && r.value.owner == was.owner && r.value.createdAt == was.createdAt && r.value.updatedAt == now
            && r.value.site == (if Truthy(body.site) then Trim(body.site.value) else was.site)
            && r.value.username == (if Truthy(body.username) then Trim(body.username.value) else was.username)
            && (Truthy(body.category) ==> ParseCategory(body.category.value) == Some(r.value.category))
            && (!Truthy(body.category) ==> r.value.category == was.category)
            && r.value.notes == (if body.notes.Some? then Some(Trim(body.notes.value)) else was.notes)
            && r.value.encryptedPassword == (if envelope.Some? then envelope.value else was.encryptedPassword))
  {
    var d := Patch(DocumentOf(was), body, envelope);
    if Truthy(body.site) { TrimEmptyIff(body.site.value); }
    if Truthy(body.username) { TrimEmptyIff(body.username.value); }
    CategoryNameRoundTrip(was.category);
    assert d.site != [] <==> (Truthy(body.site) ==> !AllWhiteSpace(body.site.value));
    assert d.username != [] <==> (Truthy(body.username) ==> !AllWhiteSpace(body.username.value));
    assert d.encryptedPassword != [];
    assert ParseCategory(d.category).Some? <==>
      (Truthy(body.category) ==> ParseCategory(body.category.value).Some?);
    var r := Save(d, now);
    if r.Success? {
      CategoryNameRoundTrip(r.value.category);
    }
  }

  /** Lines 127-133 of the update handler on a stored record: encrypt a
      truthy new password, apply `Patch`, save. Fields the body does not set
      keep their values; owner and `createdAt` never change. */
  function UpdateRecord(c: Cipher, secret: string, was: Credential, body: Body, iv: Iv, now: int)
    : (r: Result<Credential>)
    requires Stored(was)
    ensures r.Success? <==>
      && (Truthy(body.site) ==> !AllWhiteSpace(body.site.value))
      && (Truthy(body.username) ==> !AllWhiteSpace(body.username.value))
      && (Truthy(body.password) ==> KeyUsable(GetKey(secret)))
      && (Truthy(body.category) ==> ParseCategory(body.category.value).Some?)
    ensures r.Success? ==>
      && Stored(r.value)
      && r.value.owner == was.owner && r.value.createdAt == was.createdAt && r.value.updatedAt == now
      && r.value.site == (if Truthy(body.site) then Trim(body.site.value) else was.site)
      && r.value.username == (if Truthy(body.username) then Trim(body.username.value) else was.username)
      && (Truthy(body.category) ==> ParseCategory(body.category.value) == Some(r.value.category))
      && (!Truthy(body.category) ==> r.value.category == was.category)
      && r.value.notes == (if body.notes.Some? then Some(Trim(body.notes.value)) else was.notes)
      && r.value.encryptedPassword ==
           (if Truthy(body.password) then EncryptPassword(c, secret, iv, body.password.value).value
            else was.encryptedPassword)
    ensures r.Success? && Truthy(body.password) && CbcLaws(c) ==>
      DecryptPassword(c, secret, r.value.encryptedPassword) == Some(body.password.value)
  {
    if !Truthy(body.password) then
      SavePatch(was, body, None, now);
      Save(Patch(DocumentOf(was), body, None), now)
    else
      var encrypted := EncryptPassword(c, secret, iv, body.password.value);
      if encrypted.Failure? then Failure(encrypted.error)
      else
        SavePatch(was, body, Some(encrypted.value), now);
        EnvelopeRoundTrip(c, secret, iv, body.password.value);
        Save(Patch(DocumentOf(was), body, Some(encrypted.value)), now)
  }

  /** An update whose body carries no field rewrites nothing but `updatedAt`. */
  lemma EmptyUpdateOnlyStamps(c: Credential, now: int)
    requires Stored(c)
    ensures Save(Patch(DocumentOf(c), Body(None, None, None, None, None), None), now)
         == Success(c.(updatedAt := now))
  {
    assert Patch(DocumentOf(c), Body(None, None, None, None, None), None) == DocumentOf(c);
    SaveUnchangedOnlyStamps(c, now);
  }

  // ---------------------------------------------------------------------
  // The store
  // ---------------------------------------------------------------------

  class CredentialStore {
    /** The credential collection. */
    var records: map<CredentialId, Credential>
    /** Where the next inserted record's id comes from. */
    var nextId: CredentialId
    /** The AES-256-CBC implementation and the configured encryption secret. */
    const cipher: Cipher
    const secret: string

    ghost predicate Valid()
      reads this
    {
      forall id :: id in records ==> id < nextId && Stored(records[id])
    }

    constructor (cipher: Cipher, secret: string)
      ensures Valid()
      ensures records == map[] && this.cipher == cipher && this.secret == secret
    {
      records := map[];
      nextId := 0;
      this.cipher := cipher;
      this.secret := secret;
    }

    /** The owner-scoped lookup `findOne({ _id: id, user: requester })`. */
    predicate Owns(requester: UserId, id: CredentialId)
      reads this
    {
      OwnedBy(records, requester, id)
    }

    /** GET /: the requester's records, newest first (see `Listing`). */
    function List(requester: UserId): (r: seq<ListEntry>)
      reads this
      ensures forall i :: 0 <= i < |r| ==>
        Owns(requester, r[i].id) && r[i] == EntryOf(r[i].id, records[r[i].id])
      ensures forall id :: Owns(requester, id) ==> exists i :: 0 <= i < |r| && r[i].id == id
      ensures forall i, j :: 0 <= i < j < |r| ==> r[i].id != r[j].id && r[i].createdAt >= r[j].createdAt
    {
      Listing(records, requester)
    }

    /** GET /:id: not found unless the requester owns the record; a server
        error when the envelope does not decrypt to a non-empty password;
        otherwise the record with its password. */
    function Get(requester: UserId, id: CredentialId): (r: Reply<Detail>)
      reads this
      ensures !Owns(requester, id) ==> r == Error(404, NOT_FOUND)
      ensures Owns(requester, id) ==>
        var decrypted := DecryptPassword(cipher, secret, records[id].encryptedPassword);
        && (!Truthy(decrypted) ==> r == Error(500, DECRYPT_ERROR))
        && (Truthy(decrypted) ==> r == Ok(200, DetailOf(id, records[id], decrypted.value)))
    {
      if !Owns(requester, id) then Error(404, NOT_FOUND)
      else
        var decrypted := DecryptPassword(cipher, secret, records[id].encryptedPassword);
        if !Truthy(decrypted) then Error(500, DECRYPT_ERROR)
        else Ok(200, DetailOf(id, records[id], decrypted.value))
    }

    /** POST /: the three required fields must be truthy (400 otherwise);
        then `CreateRecord` either fails (500) or yields the one record
        inserted under a fresh id. On any failure the table is as it was. */
    method Create(requester: UserId, body: Body, iv: Iv, now: int) returns (r: Reply<CredentialView>)
      requires Valid()
      modifies this
      ensures Valid()
      ensures !Truthy(body.site) || !Truthy(body.username) || !Truthy(body.password) ==>
        r == Error(400, MISSING_FIELDS) && records == old(records)
      ensures Truthy(body.site) && Truthy(body.username) && Truthy(body.password) ==>
        var created := CreateRecord(cipher, secret, requester, body, iv, now);
        var id := old(nextId);
        && (created.Failure? ==> r == Error(500, SERVER_ERROR) && records == old(records))
        && (created.Success? ==>
              && id !in old(records)
              && records == old(records)[id := created.value]
              && r == Ok(201, ViewOf(id, created.value))
              && (CbcLaws(cipher) ==>
                    Get(requester, id) == Ok(200, DetailOf(id, created.value, body.password.value))))
    {
      if !Truthy(body.site) || !Truthy(body.username) || !Truthy(body.password) {
        return Error(400, MISSING_FIELDS);
      }
      var created := CreateRecord(cipher, secret, requester, body, iv, now);
      if created.Failure? {
        return Error(500, SERVER_ERROR);
      }
      var id := Insert(created.value);
      r := Ok(201, ViewOf(id, created.value));
      assert Owns(requester, id) && records[id] == created.value;
    }

    /** Stores a record under the next id. */
    method Insert(record: Credential) returns (id: CredentialId)
      requires Valid() && Stored(record)
      modifies this`records, this`nextId
      ensures Valid()
      ensures id == old(nextId) && id !in old(records) && records == old(records)[id := record]
    {
      id := nextId;
      records := records[id := record];
      nextId := nextId + 1;
    }

    /** PUT /:id: 404 unless the requester owns the record; otherwise
        `UpdateRecord` either fails (500) or yields the record that replaces
        it. No other record changes. */
    method Update(requester: UserId, id: CredentialId, body: Body, iv: Iv, now: int)
      returns (r: Reply<CredentialView>)
      requires Valid()
      modifies this`records
      ensures Valid()
      ensures !old(Owns(requester, id)) ==> r == Error(404, NOT_FOUND) && records == old(records)
      ensures old(Owns(requester, id)) ==>
        var updated := UpdateRecord(cipher, secret, old(records)[id], body, iv, now);
        && (updated.Failure? ==> r == Error(500, SERVER_ERROR) && records == old(records))
        && (updated.Success? ==>
              && records == old(records)[id := updated.value]
              && r == Ok(200, ViewOf(id, updated.value))
              && (Truthy(body.password) && CbcLaws(cipher) ==>
                    Get(requester, id) == Ok(200, DetailOf(id, updated.value, body.password.value))))
    {
      if !Owns(requester, id) {
        return Error(404, NOT_FOUND);
      }
      var updated := UpdateRecord(cipher, secret, records[id], body, iv, now);
      if updated.Failure? {
        return Error(500, SERVER_ERROR);
      }
      records := records[id := updated.value];
      r := Ok(200, ViewOf(id, updated.value));
      assert Owns(requester, id) && records[id] == updated.value;
    }

    /** DELETE /:id: removes exactly the requester's record with that id. */
    method Delete(requester: UserId, id: CredentialId) returns (r: Reply<string>)
      requires Valid()
      modifies this`records
      ensures Valid()
      ensures old(Owns(requester, id)) ==> r == Ok(200, DELETED) && records == old(records) - {id}
      ensures !old(Owns(requester, id)) ==> r == Error(404, NOT_FOUND) && records == old(records)
    {
      if !Owns(requester, id) {
        return Error(404, NOT_FOUND);
      }
      records := records - {id};
      r := Ok(200, DELETED);
    }
  }
}
