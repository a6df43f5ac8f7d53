/** JpaViewEntity: an entity whose payload object is stored as serialised bytes. The object is
    deserialised lazily on first read and cached; writes mark the entity dirty; the bytes are
    re-serialised only when they are asked for while the entity is dirty. */
module JpaViewEntity {
  import opened Wrappers

  type Bytes = seq<bv8>

  /** A Java `int`. */
  newtype int32 = x: int | -0x8000_0000 <= x < 0x8000_0000

  /** `++` on a Java `int`: two's-complement addition of one, that is, adding one modulo 2^32 and
      reading the result back as a signed value, so the largest value wraps around to the smallest. */
  function Increment(n: int32): (r: int32)
    ensures r as int == (n as int + 0x8000_0001) % 0x1_0000_0000 - 0x8000_0000
  {
    if n == 0x7fff_ffff then -0x8000_0000 else n + 1
  }

  /** The object mapper, as the entity uses it. `serialize` yields None where Jackson throws; `deserialize`
      yields None where Jackson throws and Some(None) where the bytes hold JSON null. */
  datatype Codec<!T> = Codec(serialize: T -> Option<Bytes>, deserialize: Bytes -> Option<Option<T>>)

  /** The exceptions the entity raises: the RuntimeException of a failed deserialisation (a missing
      object mapper included, since the catch-all handler catches its NullPointerException too), the
      NullPointerException of serialising without an object mapper, and the RuntimeException wrapping
      a JsonProcessingException. */
  datatype EntityError = CannotDeserialize | NoObjectMapper | CannotSerialize

  /** The payload state: the cached object, the serialised bytes and the dirty flag (None is Java's null). */
  datatype Payload<T> = Payload(obj: Option<T>, data: Option<Bytes>, dirty: bool)

  // ---------------------------------------------------------------- the steps, as values

  /** `read()`: deserialise only when there is no object but there are bytes, and keep the result. */
  function ReadStep<T>(mapper: Option<Codec<T>>, p: Payload<T>): (step: (Result<Option<T>, EntityError>, Payload<T>))
  {
    if p.obj.None? && p.data.Some? then
      if mapper.None? then (Err(CannotDeserialize), p)
      else match mapper.value.deserialize(p.data.value)
        case None => (Err(CannotDeserialize), p)
        case Some(decoded) => (Ok(decoded), p.(obj := decoded))
    else (Ok(p.obj), p)
  }

  /** `write()`: set the dirty flag, then read. */
  function WriteStep<T>(mapper: Option<Codec<T>>, p: Payload<T>): (step: (Result<Option<T>, EntityError>, Payload<T>))
  {
    ReadStep(mapper, p.(dirty := true))
  }

  /** `setObject(object)`. */
  function SetObjectStep<T>(p: Payload<T>, value: Option<T>): (r: Payload<T>)
  {
    p.(obj := value, dirty := true)
  }

  /** `getSerializedData()`: when dirty, the object is serialised (a null object gives null bytes), the
      dirty flag is cleared and the serialisation is counted (the last component); when clean, the
      stored bytes are returned as they are. A failure leaves everything as it was. */
  function SerializeStep<T>(mapper: Option<Codec<T>>, p: Payload<T>): (step: (Result<Option<Bytes>, EntityError>, Payload<T>, bool))
  {
    if !p.dirty then (Ok(p.data), p, false)
    else if p.obj.None? then (Ok(None), p.(data := None, dirty := false), true)
    else if mapper.None? then (Err(NoObjectMapper), p, false)
    else match mapper.value.serialize(p.obj.value)
      case None => (Err(CannotSerialize), p, false)
      case Some(bytes) => (Ok(Some(bytes)), p.(data := Some(bytes), dirty := false), true)
  }

  // ---------------------------------------------------------------- what the steps promise

  /** `read` never touches the bytes or the dirty flag, and it is idempotent. Once it has produced an
      object, that object is cached: the next read returns it without consulting the mapper at all. */
  lemma {:induction false} ReadCaches<T>(mapper: Option<Codec<T>>, other: Option<Codec<T>>, p: Payload<T>)
    ensures var (r, next) := ReadStep(mapper, p);
      && next.data == p.data && next.dirty == p.dirty
      && ReadStep(mapper, next) == (r, next)
      && (r.Ok? && r.value.Some? ==> next.obj == r.value && ReadStep(other, next) == (r, next))
  {
    if p.obj.None? && p.data.Some? && mapper.Some? {
      match mapper.value.deserialize(p.data.value)
      case None =>
      case Some(decoded) =>
        assert ReadStep(mapper, p).1 == p.(obj := decoded);
    }
  }

  /** `write` returns what `read` would and leaves the same state, except that the entity is dirty. */
  lemma {:induction false} WriteIsDirtyRead<T>(mapper: Option<Codec<T>>, p: Payload<T>)
    ensures WriteStep(mapper, p).0 == ReadStep(mapper, p).0
    ensures WriteStep(mapper, p).1 == ReadStep(mapper, p).1.(dirty := true)
  {
    if p.obj.None? && p.data.Some? && mapper.Some? {
      match mapper.value.deserialize(p.data.value)
      case None =>
      case Some(decoded) =>
        assert WriteStep(mapper, p).1 == p.(obj := decoded, dirty := true);
    }
  }

  /** Two `getSerializedData` calls with no write between them serialise at most once: the second
      finds the entity clean, returns the same bytes and changes nothing. The object is never touched. */
  lemma {:induction false} SerializeOnce<T>(mapper: Option<Codec<T>>, p: Payload<T>)
    ensures var (r, next, counted) := SerializeStep(mapper, p);
      && next.obj == p.obj
      && (counted <==> r.Ok? && p.dirty)
      && (r.Ok? ==> !next.dirty && r.value == next.data && SerializeStep(mapper, next) == (r, next, false))
      && (r.Err? ==> next == p)
  {
    if p.dirty && p.obj.Some? && mapper.Some? {
      match mapper.value.serialize(p.obj.value)
      case None =>
      case Some(bytes) =>
        assert SerializeStep(mapper, p).1 == p.(data := Some(bytes), dirty := false);
    }
  }

  /** After `setObject(x)`, the bytes are those of x, and with a mapper that reads back what it writes,
      an entity holding only those bytes reads x. */
  lemma {:induction false} SetObjectRoundTrip<T>(codec: Codec<T>, p: Payload<T>, x: T, bytes: Bytes)
    requires codec.serialize(x) == Some(bytes) && codec.deserialize(bytes) == Some(Some(x))
    ensures var (r, next, counted) := SerializeStep(Some(codec), SetObjectStep(p, Some(x)));
      && r == Ok(Some(bytes)) && counted && next == Payload(Some(x), Some(bytes), false)
      && ReadStep(Some(codec), Payload(None, Some(bytes), false)).0 == Ok(Some(x))
  {
    assert SetObjectStep(p, Some(x)).obj == Some(x);
  }

  // ---------------------------------------------------------------- the entity

  /** The static `serialization` counter, one object shared by all entities. */
  class SerializationCounter {
    var serialization: int32

    constructor ()
      ensures serialization == 0
    {
      serialization := 0;
    }
  }

  class ViewEntity<T> {
    var dirty: bool
    var obj: Option<T>
    var objectMapper: Option<Codec<T>>
    var id: Option<string>
    var serializedData: Option<Bytes>
    var version: int
    const counter: SerializationCounter

    function State(): Payload<T>
      reads this
    {
      Payload(obj, serializedData, dirty)
    }

    constructor (counter: SerializationCounter)
      ensures this.counter == counter
      ensures State() == Payload(None, None, false) && objectMapper == None && id == None && version == 0
    {
      this.counter := counter;
      dirty := false;
      obj := None;
      objectMapper := None;
      id := None;
      serializedData := None;
      version := 0;
    }

    /** `read()`. */
    method Read() returns (r: Result<Option<T>, EntityError>)
      modifies this
      ensures (r, State()) == ReadStep(objectMapper, old(State()))
      ensures objectMapper == old(objectMapper) && id == old(id) && version == old(version)
    {
      r := Ok(obj);
      if obj.None? && serializedData.Some? {
        if objectMapper.None? {
          r := Err(CannotDeserialize);
        } else {
          var decoded := objectMapper.value.deserialize(serializedData.value);
          if decoded.None? {
            r := Err(CannotDeserialize);
          } else {
            obj := decoded.value;
            r := Ok(obj);
          }
        }
      }
    }

    /** `write()`. */
    method Write() returns (r: Result<Option<T>, EntityError>)
      modifies this
      ensures (r, State()) == WriteStep(objectMapper, old(State()))
      ensures objectMapper == old(objectMapper) && id == old(id) && version == old(version)
    {
      dirty := true;
      r := Read();
    }

    /** `setObject(object)`. */
    method SetObject(value: Option<T>)
      modifies this
      ensures State() == SetObjectStep(old(State()), value)
      ensures objectMapper == old(objectMapper) && id == old(id) && version == old(version)
    {
      this.dirty := true;
      this.obj := value;
    }

    /** `getSerializedData()`, with `updateSerializedData()` inlined. */
    method GetSerializedData() returns (r: Result<Option<Bytes>, EntityError>)
      modifies this, counter
      ensures var (result, next, counted) := SerializeStep(objectMapper, old(State()));
        && r == result && State() == next
        && counter.serialization == if counted then Increment(old(counter.serialization)) else old(counter.serialization)
      ensures objectMapper == old(objectMapper) && id == old(id) && version == old(version)
    {
      if dirty {
        if obj.None? {
          serializedData := None;
        } else if objectMapper.None? {
          return Err(NoObjectMapper);
        } else {
          var bytes := objectMapper.value.serialize(obj.value);
          if bytes.None? {
            return Err(CannotSerialize);
          }
          serializedData := bytes;
        }
        counter.serialization := Increment(counter.serialization);
        dirty := false;
      }
      r := Ok(serializedData);
    }

    method SetObjectMapper(mapper: Codec<T>)
      modifies this
      ensures objectMapper == Some(mapper)
      ensures State() == old(State()) && id == old(id) && version == old(version)
    {
      objectMapper := Some(mapper);
    }

    /** `setSerializedData(bytes)`: the bytes are replaced; the cached object and the dirty flag stay. */
    method SetSerializedData(bytes: Option<Bytes>)
      modifies this
      ensures State() == old(State()).(data := bytes)
      ensures objectMapper == old(objectMapper) && id == old(id) && version == old(version)
    {
      serializedData := bytes;
    }

    function GetId(): Option<string>
      reads this
    {
      id
    }

    method SetId(id: Option<string>)
      modifies this
      ensures GetId() == id
      ensures State() == old(State()) && objectMapper == old(objectMapper) && version == old(version)
    {
      this.id := id;
    }

    function GetVersion(): int
      reads this
    {
      version
    }

    /** `setVersion(v)`: `getVersion()` answers v afterwards; nothing else changes. */
    method SetVersion(version: int)
      modifies this
      ensures GetVersion() == version
      ensures State() == old(State()) && objectMapper == old(objectMapper) && id == old(id)
    {
      this.version := version;
    }
  }
}
