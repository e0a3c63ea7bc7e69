/**
  The resource store both controllers talk to, reduced to what they use: records
  keyed by namespace and name, each carrying the version the store assigned on
  its last write, and get/create/update/delete with optimistic concurrency. A
  store that is not `online` fails every call with `Unreachable`, which stands
  for every error other than NotFound, AlreadyExists and Conflict.
 */
module Registry {

  datatype Key = Key(namespace: string, name: string)

  /** What the store keeps under a key. */
  datatype Entry<T> = Entry(version: nat, value: T)

  /** A record as the store hands it out (and as a change feed delivers it). */
  datatype Object<T> = Object(key: Key, version: nat, value: T)

  datatype Store<T> = Store(entries: map<Key, Entry<T>>, revision: nat, online: bool)

  datatype Error = NotFound | AlreadyExists | Conflict | Unreachable

  datatype Result<R> = Ok(value: R) | Err(error: Error)

  /** A write request: create a new record, update one at the version read, or delete one. */
  datatype Write<T> = Create(key: Key, value: T) | Update(obj: Object<T>) | Delete(key: Key)

  function Get<T>(s: Store<T>, k: Key): (r: Result<Object<T>>)
    ensures r.Ok? ==> r.value.key == k
  {
    if !s.online then Err(Unreachable)
    else if k in s.entries then Ok(Object(k, s.entries[k].version, s.entries[k].value))
    else Err(NotFound)
  }

  /** Stores `v` under `k` at a fresh version. */
  function Put<T>(s: Store<T>, k: Key, v: T): Store<T>
  {
    s.(entries := s.entries[k := Entry(s.revision + 1, v)], revision := s.revision + 1)
  }

  function Apply<T>(s: Store<T>, w: Write<T>): Result<Store<T>>
  {
    if !s.online then Err(Unreachable)
    else
      match w
      case Create(k, v) =>
        if k in s.entries then Err(AlreadyExists) else Ok(Put(s, k, v))
      case Update(o) =>
        if o.key !in s.entries then Err(NotFound)
        else if s.entries[o.key].version != o.version then Err(Conflict)
        else Ok(Put(s, o.key, o.value))
      case Delete(k) =>
        if k !in s.entries then Err(NotFound)
        else Ok(s.(entries := s.entries - {k}, revision := s.revision + 1))
  }

  /** The controllers log a failed call and carry on with the store as it was. */
  function Commit<T>(s: Store<T>, r: Result<Store<T>>): Store<T>
  {
    if r.Ok? then r.value else s
  }

  /** The key a write addresses. */
  function WriteKey<T>(w: Write<T>): Key
  {
    match w
    case Create(k, _) => k
    case Update(o) => o.key
    case Delete(k) => k
  }

  /** A write changes at most the record it addresses. */
  lemma ApplyFrame<T>(s: Store<T>, w: Write<T>)
    requires Apply(s, w).Ok?
    ensures Apply(s, w).value.entries - {WriteKey(w)} == s.entries - {WriteKey(w)}
    ensures Apply(s, w).value.online == s.online
  {
    var s' := Apply(s, w).value;
    var k := WriteKey(w);
    assert (s'.entries - {k}).Keys == (s.entries - {k}).Keys;
  }
}
