/** `QueryParamsBuilder` of src/web.rs: the builder for the query part of request URLs. It owns a
    form-urlencoded serializer whose target starts empty; `put` appends a pair only when a value
    is present, and `build` hands back the serializer's text. */
module QueryParams {
  import opened Wrappers
  import FormUrlencoded

  class QueryParamsBuilder {
    /** The serializer's target string. */
    var target: string
    /** The pairs appended so far, in order. */
    ghost var Pairs: seq<(string, string)>

    ghost predicate Valid()
      reads this
    {
      target == FormUrlencoded.Serialize(Pairs)
    }

    /** `QueryParamsBuilder::new`: a serializer over the empty string. */
    constructor ()
      ensures Valid() && Pairs == []
    {
      target := "";
      Pairs := [];
    }

    /** `put(name, value)`: `None` adds nothing; `Some(v)` appends the pair `(name, v)` after all
        earlier pairs, as `append_pair` does: a `&` first when the target is not empty. */
    method Put(name: string, value: Option<string>)
      requires Valid()
      modifies this
      ensures Valid()
      ensures Pairs == old(Pairs) + (if value.Some? then [(name, value.value)] else [])
    {
      if value.Some? {
        FormUrlencoded.SerializeShortForms(Pairs);
        FormUrlencoded.SerializeAppend(Pairs, (name, value.value));
        if |target| > 0 {
          target := target + "&";
        }
        target := target + FormUrlencoded.SerializePair((name, value.value));
        Pairs := Pairs + [(name, value.value)];
      }
    }

    /** `build`: the serializer's `finish()`, the pairs joined by `&` in insertion order. */
    method Build() returns (query: string)
      requires Valid()
      ensures query == FormUrlencoded.Serialize(Pairs)
      ensures FormUrlencoded.Parse(query) == Some(Pairs)
    {
      FormUrlencoded.ParseSerialize(Pairs);
      query := target;
    }
  }
}
