/** The memoising node of `src/modifier/cation.rs`: `Cation<T>` holds a
    modifier and an optional cache of its last output, and `Output` pairs an
    image with the identity of the computation that produced it. */
module Cations {
  import opened Wrappers
  import opened Images

  /** Identities. `Uuid::new_v4` is modelled by a counter `last`, the largest
      identity handed out so far: the next fresh one is `last + 1`. The nil
      identity 0 is never handed out. */
  type Uuid = nat

  const NIL: Uuid := 0

  datatype Output = Output(image: Option<Image>, id: Uuid)

  datatype Cache<T> = Cache(modifier: T, output: Output, inputId: Uuid)

  datatype Cation<T> = Cation(id: Uuid, modifier: T, cache: Option<Cache<T>>)

  /** `Output::new`: the image under an identity never handed out before. */
  function NewOutput(image: Option<Image>, last: Uuid): (r: (Output, Uuid))
    ensures r.0.image == image
    ensures r.0.id != NIL && r.0.id > last
    ensures r.1 == r.0.id
  {
    (Output(image, last + 1), last + 1)
  }

  /** `Output::new_empty`: no image, nil identity. */
  function NewEmpty(): (r: Output)
    ensures r.image.None? && r.id == NIL
  {
    Output(None, NIL)
  }

  /** `Cation::new`: a fresh identity and no cache. */
  function New<T>(m: T, last: Uuid): (r: (Cation<T>, Uuid))
    ensures r.0.modifier == m && r.0.cache.None?
    ensures r.0.id != NIL && r.0.id > last && r.1 == r.0.id
  {
    (Cation(last + 1, m, None), last + 1)
  }

  /** `Cache::changed`: the snapshot differs from the current modifier under
      the modifier type's equality `eq`. */
  predicate Changed<T>(cache: Cache<T>, m: T, eq: (T, T) -> bool)
  {
    !eq(cache.modifier, m)
  }

  /** `Cation::check_cache`. */
  predicate CheckCache<T>(c: Cation<T>, input: Output, eq: (T, T) -> bool)
  {
    c.cache.Some? && !Changed(c.cache.value, c.modifier, eq) && c.cache.value.inputId == input.id
  }

  /** The tail of `Cation::apply`: the modifier has run, leaving `applied`
      (the modifier after its own run) and `image`; a fresh `Output` is minted
      for the image and the cache records the snapshot, that output and the
      input's identity. */
  function Store<T>(c: Cation<T>, applied: T, input: Output, image: Option<Image>, last: Uuid): (r: (Cation<T>, Output, Uuid))
    ensures r.0.id == c.id && r.0.modifier == applied
    ensures r.1.image == image && r.1.id > last && r.2 == r.1.id
    ensures r.0.cache == Some(Cache(applied, r.1, input.id))
  {
    var (out, next) := NewOutput(image, last);
    (Cation(c.id, applied, Some(Cache(applied, out, input.id))), out, next)
  }

  /** `PartialEq for Cation`: identity and modifier; the cache is ignored. */
  predicate NodeEq<T>(a: Cation<T>, b: Cation<T>, eq: (T, T) -> bool)
  {
    a.id == b.id && eq(a.modifier, b.modifier)
  }

  /** After a recomputation the cache answers the same input, provided the
      modifier type's equality is reflexive on the stored modifier. */
  lemma StoreHits<T>(c: Cation<T>, applied: T, input: Output, image: Option<Image>, last: Uuid, eq: (T, T) -> bool)
    requires eq(applied, applied)
    ensures CheckCache(Store(c, applied, input, image, last).0, input, eq)
  {
  }

  /** A fresh node has no cache, so its first output always recomputes. */
  lemma FreshMisses<T>(m: T, last: Uuid, input: Output, eq: (T, T) -> bool)
    ensures !CheckCache(New(m, last).0, input, eq)
  {
  }

  /** A cache never answers an input whose identity differs from the one it
      recorded, whatever the modifier. */
  lemma CacheKeyedByInput<T>(c: Cation<T>, a: Output, b: Output, eq: (T, T) -> bool)
    requires CheckCache(c, a, eq) && a.id != b.id
    ensures !CheckCache(c, b, eq)
  {
  }

  /** Node equality ignores the cache. */
  lemma NodeEqIgnoresCache<T>(a: Cation<T>, cache: Option<Cache<T>>, eq: (T, T) -> bool)
    requires eq(a.modifier, a.modifier)
    ensures NodeEq(a, a.(cache := cache), eq)
  {
  }
}
