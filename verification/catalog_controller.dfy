/**
  The catalog controller: merge-patch updates of catalog records, idempotent
  deletion, and the change-feed handlers, which only classify and log.
 */
module CatalogController {
  import opened Options
  import opened Registry
  import opened Status
  import opened CatalogTypes

  /** The value arguments of UpdateCatalog; "" means "not supplied". */
  datatype Request = Request(status: string, name: string, url: string, username: string, password: string, description: string)

  /** The field names GetNoEmptyValues knows. */
  const FieldNames: set<string> := {"Name", "Url", "Username", "Password", "Description", "Status"}

  /**
    GetNoEmptyValues: a supplied value wins; an empty one falls back to the
    stored field the name selects; an unknown name with an empty value gives "".
   */
  function GetNoEmptyValues(c: Catalog, field: string, value: string): (r: string)
    ensures value != "" ==> r == value
    ensures value == "" && field !in FieldNames ==> r == ""
    ensures value == "" && field == "Name" ==> r == c.spec.name
    ensures value == "" && field == "Url" ==> r == c.spec.url
    ensures value == "" && field == "Username" ==> r == c.spec.username
    ensures value == "" && field == "Password" ==> r == c.spec.password
    ensures value == "" && field == "Description" ==> r == c.spec.description
    ensures value == "" && field == "Status" ==> r == c.status
  {
    if value != "" then value
    else if field == "Name" then c.spec.name
    else if field == "Url" then c.spec.url
    else if field == "Username" then c.spec.username
    else if field == "Password" then c.spec.password
    else if field == "Description" then c.spec.description
    else if field == "Status" then c.status
    else value
  }

  /** The record a create writes: every value as supplied, empty ones included. */
  function FromRequest(q: Request): Catalog
  {
    Catalog(CatalogSpec(q.name, q.url, q.username, q.password, q.description), q.status)
  }

  predicate AllEmpty(q: Request)
  {
    q.status == "" && q.name == "" && q.url == "" && q.username == "" && q.password == "" && q.description == ""
  }

  predicate NoneEmpty(q: Request)
  {
    q.status != "" && q.name != "" && q.url != "" && q.username != "" && q.password != "" && q.description != ""
  }

  /** The record an update writes: each field resolved by GetNoEmptyValues against the stored record. */
  function Merge(stored: Catalog, q: Request): (r: Catalog)
    ensures r.spec.name == "" <==> q.name == "" && stored.spec.name == ""
    ensures r.spec.url == "" <==> q.url == "" && stored.spec.url == ""
    ensures r.spec.username == "" <==> q.username == "" && stored.spec.username == ""
    ensures r.spec.password == "" <==> q.password == "" && stored.spec.password == ""
    ensures r.spec.description == "" <==> q.description == "" && stored.spec.description == ""
    ensures r.status == "" <==> q.status == "" && stored.status == ""
    ensures AllEmpty(q) ==> r == stored
    ensures NoneEmpty(q) ==> r == FromRequest(q)
  {
    Catalog(
      CatalogSpec(
        GetNoEmptyValues(stored, "Name", q.name),
        GetNoEmptyValues(stored, "Url", q.url),
        GetNoEmptyValues(stored, "Username", q.username),
        GetNoEmptyValues(stored, "Password", q.password),
        GetNoEmptyValues(stored, "Description", q.description)),
      GetNoEmptyValues(stored, "Status", q.status))
  }

  /** Applying the same partial update twice is the same as applying it once. */
  lemma MergeIdempotent(stored: Catalog, q: Request)
    ensures Merge(Merge(stored, q), q) == Merge(stored, q)
  {
  }

  /** Field-wise "later wins unless empty" combination of two requests. */
  function Overlay(later: Request, earlier: Request): Request
  {
    Request(
      if later.status != "" then later.status else earlier.status,
      if later.name != "" then later.name else earlier.name,
      if later.url != "" then later.url else earlier.url,
      if later.username != "" then later.username else earlier.username,
      if later.password != "" then later.password else earlier.password,
      if later.description != "" then later.description else earlier.description)
  }

  /** Two partial updates in a row act as one update carrying their overlay. */
  lemma MergeCompose(stored: Catalog, q1: Request, q2: Request)
    ensures Merge(Merge(stored, q1), q2) == Merge(stored, Overlay(q2, q1))
  {
  }

  /**
    The write UpdateCatalog issues: a create with the values as given when the
    read reports NotFound, an update at the version read, keeping the record's
    name and namespace, when it succeeds, nothing on any other error.
   */
  function UpdateCatalogWrite(st: Store<Catalog>, namespace: string, name: string, q: Request): (w: Option<Write<Catalog>>)
    ensures !st.online <==> w.None?
    ensures st.online && Key(namespace, name) !in st.entries ==> w == Some(Create(Key(namespace, name), FromRequest(q)))
    ensures st.online && Key(namespace, name) in st.entries ==>
      var e := st.entries[Key(namespace, name)];
      w == Some(Update(Object(Key(namespace, name), e.version, Merge(e.value, q))))
  {
    match Get(st, Key(namespace, name))
    case Ok(c) => Some(Update(Object(Key(namespace, c.key.name), c.version, Merge(c.value, q))))
    case Err(NotFound) => Some(Create(Key(namespace, name), FromRequest(q)))
    case Err(_) => None
  }

  /**
    UpdateCatalog: an absent record is created with exactly the supplied values;
    a present one is merge-patched; no other record changes.
   */
  function UpdateCatalog(st: Store<Catalog>, namespace: string, name: string, q: Request): (r: Store<Catalog>)
    ensures !st.online ==> r == st
    ensures r.online == st.online
    ensures r.entries - {Key(namespace, name)} == st.entries - {Key(namespace, name)}
    ensures st.online ==> Key(namespace, name) in r.entries && r.entries[Key(namespace, name)].version == st.revision + 1
    ensures st.online && Key(namespace, name) !in st.entries ==> r.entries[Key(namespace, name)].value == FromRequest(q)
    ensures st.online && Key(namespace, name) in st.entries ==>
      r.entries[Key(namespace, name)].value == Merge(st.entries[Key(namespace, name)].value, q)
  {
    match UpdateCatalogWrite(st, namespace, name, q)
    case None => st
    case Some(w) => Commit(st, Apply(st, w))
  }

  /** Repeating an update leaves the record's contents as the first one left them. */
  lemma UpdateCatalogIdempotent(st: Store<Catalog>, namespace: string, name: string, q: Request)
    requires st.online
    ensures var once := UpdateCatalog(st, namespace, name, q);
      UpdateCatalog(once, namespace, name, q).entries[Key(namespace, name)].value == once.entries[Key(namespace, name)].value
  {
    var once := UpdateCatalog(st, namespace, name, q);
    var k := Key(namespace, name);
    if k in st.entries {
      MergeIdempotent(st.entries[k].value, q);
    } else {
      assert Merge(FromRequest(q), q) == FromRequest(q);
    }
  }

  /** An update with nothing supplied leaves an existing record's contents alone. */
  lemma EmptyUpdateKeepsContents(st: Store<Catalog>, namespace: string, name: string, q: Request)
    requires st.online && Key(namespace, name) in st.entries && AllEmpty(q)
    ensures UpdateCatalog(st, namespace, name, q).entries[Key(namespace, name)].value == st.entries[Key(namespace, name)].value
  {
  }

  /** DeleteCatalog: reads the record and deletes it when present; absent means already deleted. */
  function DeleteCatalog(st: Store<Catalog>, namespace: string, name: string): (r: Store<Catalog>)
    ensures Key(namespace, name) !in st.entries || !st.online ==> r == st
    ensures st.online ==> r.entries == st.entries - {Key(namespace, name)}
    ensures r.online == st.online
  {
    match Get(st, Key(namespace, name))
    case Ok(_) => Commit(st, Apply(st, Delete(Key(namespace, name))))
    case Err(_) => st
  }

  lemma DeleteCatalogIdempotent(st: Store<Catalog>, namespace: string, name: string)
    ensures DeleteCatalog(DeleteCatalog(st, namespace, name), namespace, name) == DeleteCatalog(st, namespace, name)
  {
  }

  /** Creating a record and deleting it again restores every record. */
  lemma CreateThenDelete(st: Store<Catalog>, namespace: string, name: string, q: Request)
    requires st.online && Key(namespace, name) !in st.entries
    ensures DeleteCatalog(UpdateCatalog(st, namespace, name, q), namespace, name).entries == st.entries
  {
  }

  /**
    The two updates the catalog program issues for "xyz": a create, then a
    partial update that supplies only status, name and description.
   */
  lemma CatalogScenario(st: Store<Catalog>, namespace: string)
    requires st.online && Key(namespace, "xyz") !in st.entries
    ensures var first := UpdateCatalog(st, namespace, "xyz", Request("UnAvailable", "aaa", "bbb", "ccc", "ddd", "11111111111"));
      var second := UpdateCatalog(first, namespace, "xyz", Request("Available", "111", "", "", "", "55555555555"));
      second.entries[Key(namespace, "xyz")].value
        == Catalog(CatalogSpec("111", "bbb", "ccc", "ddd", "55555555555"), Available)
  {
  }

  /**
    The add handler's filter: an Available record is reported, an UnAvailable
    one is not, and neither is a record with an empty or unknown status.
   */
  function OnCatalogAdd(obj: Object<Catalog>): (announced: bool)
    ensures obj.value.status == Available ==> announced
    ensures obj.value.status == UnAvailable ==> !announced
    ensures obj.value.status != Available && obj.value.status != UnAvailable ==> !announced
  {
    obj.value.status == Available
  }

  /**
    The update handler: an unchanged version is an echo, a namespace change is
    ignored, and only then is the status pair classified.
   */
  function OnCatalogUpdate(before: Object<Catalog>, after: Object<Catalog>): (t: Transition)
    ensures t == Echo <==> before.version == after.version
    ensures t == CrossNamespace <==> before.version != after.version && before.key.namespace != after.key.namespace
    ensures t in {Recovered, Lost} ==> before.version != after.version && before.key.namespace == after.key.namespace
    ensures t !in {Echo, CrossNamespace} ==> t == StatusChange(before.value.status, after.value.status)
  {
    if before.version == after.version then Echo
    else if before.key.namespace != after.key.namespace then CrossNamespace
    else StatusChange(before.value.status, after.value.status)
  }

  /**
    For records whose status is one of the two known values, a real
    same-namespace update reports Recovered exactly when the add handler
    would start reporting the record, and Lost exactly when it would stop.
   */
  lemma UpdateTracksAddFilter(before: Object<Catalog>, after: Object<Catalog>)
    requires before.value.status in {Available, UnAvailable} && after.value.status in {Available, UnAvailable}
    requires before.version != after.version && before.key.namespace == after.key.namespace
    ensures OnCatalogUpdate(before, after) == Recovered <==> !OnCatalogAdd(before) && OnCatalogAdd(after)
    ensures OnCatalogUpdate(before, after) == Lost <==> OnCatalogAdd(before) && !OnCatalogAdd(after)
    ensures OnCatalogUpdate(before, after) == Steady <==> OnCatalogAdd(before) == OnCatalogAdd(after)
  {
  }
}
