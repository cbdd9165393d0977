/**
 * `dts::Any`: a single slot that holds at most one value of any type, and
 * the typed extraction `AnyCast<T>`, which fails when the held value is not
 * a `T`. The heap-allocated holder with its virtual copy becomes an
 * optional tagged value; the type test of `dynamic_cast` becomes a
 * comparison of type tags.
 */
module AnyStore {
  import opened Values

  /**
   * `AnyCast<T>`: the held value when the slot holds a value of type `t`,
   * and `BadCast` otherwise (an empty slot included). It only reads the slot.
   */
  function AnyCast(slot: Option<Value>, t: Tag): (r: Result<Value>)
    ensures r.Ok? <==> slot.Some? && TypeOf(slot.value) == t
    ensures r.Ok? ==> r.value == slot.value
    ensures r.Err? ==> r.error == BadCast
  {
    match slot
    case Some(v) => if TypeOf(v) == t then Ok(v) else Err(BadCast)
    case None => Err(BadCast)
  }

  class Any {
    /** The holder `content_`: `None` for no holder. */
    var content: Option<Value>

    /** `Any()`: an empty store. */
    constructor ()
      ensures content == None
    {
      content := None;
    }

    /** `Any(const T&)`: a store holding `v`. */
    constructor FromValue(v: Value)
      ensures content == Some(v)
    {
      content := Some(v);
    }

    /** `Any(const Any&)`: a store holding a copy of what `other` holds; `other` is unchanged. */
    constructor Copy(other: Any)
      ensures content == other.content
    {
      content := other.content;
    }

    /** `Any(Any&&)`: takes over what `other` holds and leaves `other` empty. */
    constructor Move(other: Any)
      modifies other
      ensures content == old(other.content) && other.content == None
    {
      content := other.content;
      other.content := None;
    }

    /** `operator=(const Any&)`: copies what `other` holds; self-assignment changes nothing. */
    method CopyAssign(other: Any)
      modifies this
      ensures content == old(other.content)
      ensures other != this ==> other.content == old(other.content)
      ensures other == this ==> content == old(content)
    {
      if other == this {
        return;
      }
      content := None;
      content := other.content;
    }

    /**
     * `operator=(Any&&)`: takes over what `other` holds and empties `other`;
     * self-assignment changes nothing (in particular it does not empty the store).
     */
    method MoveAssign(other: Any)
      modifies this, other
      ensures other != this ==> content == old(other.content) && other.content == None
      ensures other == this ==> content == old(content)
    {
      if other == this {
        return;
      }
      content := None;
      content := other.content;
      other.content := None;
    }

    /** `operator=(const T&)`: replaces the content with `v`. */
    method Assign(v: Value)
      modifies this
      ensures content == Some(v)
    {
      content := Some(v);
    }

    /** `Reset()`: drops the held value. */
    method Reset()
      modifies this
      ensures content == None
    {
      content := None;
    }

    /** `Contains<T>()`: whether the held value is a `t`, i.e. whether `AnyCast` at `t` succeeds. */
    function Contains(t: Tag): (b: bool)
      reads this
      ensures b <==> AnyCast(content, t).Ok?
    {
      content.Some? && TypeOf(content.value) == t
    }

    /** `Swap(Any&)`: exchanges the contents of the two stores. */
    method Swap(other: Any)
      modifies this, other
      ensures content == old(other.content) && other.content == old(content)
    {
      content, other.content := other.content, content;
    }

    /**
     * `Emplace<T>(args...)`: replaces the content with `make(args)`, the
     * value `T`'s constructor builds from `args`; `t` is `T`, so afterwards
     * the store contains a `T`.
     */
    method Emplace(t: Tag, make: seq<Value> -> Value, args: seq<Value>)
      requires forall a :: TypeOf(make(a)) == t
      modifies this
      ensures content == Some(make(args))
      ensures Contains(t)
    {
      Reset();
      content := Some(make(args));
    }
  }
}
