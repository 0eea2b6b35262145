/** The one-way password hash the server stores and compares against
    (bcrypt in the running system), kept abstract: every operation that hashes
    or compares takes a `Hasher`, and the properties that need the hash to work
    assume only that it is `Sound`. */
module PasswordHash {

  /** A hash function and the comparison that checks a plaintext against a
      stored hash. */
  datatype Hasher = Hasher(hash: string -> string, verify: (string, string) -> bool)

  /** What the rest of the model relies on: a plaintext always verifies
      against its own hash, and a hash is never the empty string (the empty
      string is what the server stores for "no password"). */
  ghost predicate Sound(h: Hasher) {
    && (forall p :: h.verify(p, h.hash(p)))
    && (forall p :: h.hash(p) != "")
  }

  /** A deterministic stand-in: a fixed tag followed by the plaintext. */
  function ReferenceHash(p: string): (d: string)
    ensures |d| > |p|
    ensures d[|d| - |p|..] == p
  {
    "$2b$10$" + p
  }

  function ReferenceVerify(p: string, d: string): bool {
    d == ReferenceHash(p)
  }

  const Reference: Hasher := Hasher(ReferenceHash, ReferenceVerify)

  /** The stand-in hash verifies exactly the plaintext it was made from. */
  lemma ReferenceRoundTrip(p: string, q: string)
    ensures Reference.verify(q, Reference.hash(p)) <==> p == q
  {
    if ReferenceHash(p) == ReferenceHash(q) {
      assert ReferenceHash(p)[7..] == p;
      assert ReferenceHash(q)[7..] == q;
    }
  }

  /** The stand-in is sound, so `Sound` can be met. */
  lemma ReferenceIsSound()
    ensures Sound(Reference)
  {
    forall p ensures Reference.verify(p, Reference.hash(p)) {
      ReferenceRoundTrip(p, p);
    }
  }
}
