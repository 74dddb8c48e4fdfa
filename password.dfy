/**
 * The password policy of models/password.ts: a pepper appended to the
 * plaintext on both the hashing and the comparing side, and a cost factor
 * that depends on the deployment environment. bcrypt is an oracle given as
 * a parameter.
 */
module Password {
  import opened Wrappers

  /** The two environment variables the policy reads. */
  datatype Env = Env(nodeEnv: Option<string>, pepper: Option<string>)

  /**
   * The bcrypt library: `hash(s, rounds, salt)` with the salt the library
   * draws at random, and `compare(s, hash)`.
   */
  datatype Bcrypt = Bcrypt(hash: (string, nat, string) -> string, compare: (string, string) -> bool)

  /** bcrypt accepts the string a hash was made from, whatever cost and salt were used. */
  ghost predicate Sound(b: Bcrypt) {
    forall s, rounds, salt :: b.compare(s, b.hash(s, rounds, salt))
  }

  /** bcrypt accepts no other string for a hash (an idealisation: see README). */
  ghost predicate Binding(b: Bcrypt) {
    forall s, t, rounds, salt :: b.compare(s, b.hash(t, rounds, salt)) ==> s == t
  }

  const DEFAULT_PEPPER := "Bell_Pepper"

  /** `process.env.PEPPER || "Bell_Pepper"`. */
  function Pepper(env: Env): (p: string)
    ensures p != ""
    ensures env.pepper.Some? && env.pepper.value != "" ==> p == env.pepper.value
    ensures env.pepper.None? || env.pepper.value == "" ==> p == DEFAULT_PEPPER
  {
    if env.pepper.Some? && env.pepper.value != "" then env.pepper.value else DEFAULT_PEPPER
  }

  function NumberOfRounds(env: Env): (rounds: nat)
    ensures rounds == 14 <==> env.nodeEnv == Some("production")
    ensures rounds == 1 <==> env.nodeEnv != Some("production")
  {
    if env.nodeEnv == Some("production") then 14 else 1
  }

  /** The "spicy" password: the plaintext with the pepper appended, never prepended. */
  function Spiced(env: Env, plaintext: string): (spicy: string)
    ensures |spicy| == |plaintext| + |Pepper(env)|
    ensures spicy[..|plaintext|] == plaintext && spicy[|plaintext|..] == Pepper(env)
  {
    plaintext + Pepper(env)
  }

  /** `hash(password)`: bcrypt of the spicy password, at the policy's cost. */
  function Hash(env: Env, b: Bcrypt, password: string, salt: string): (h: string)
    ensures h == b.hash(Spiced(env, password), NumberOfRounds(env), salt)
    ensures Sound(b) ==> b.compare(Spiced(env, password), h)
  {
    b.hash(password + Pepper(env), NumberOfRounds(env), salt)
  }

  /**
   * `compare(provided, stored)`: bcrypt's comparison of the spicy provided
   * password with the stored hash. Under a binding bcrypt, an accepted hash can only
   * have been made from that peppered string.
   */
  function Compare(env: Env, b: Bcrypt, provided: string, stored: string): (accepted: bool)
    ensures accepted == b.compare(Spiced(env, provided), stored)
    ensures Binding(b) && accepted ==>
              forall t, rounds, salt :: stored == b.hash(t, rounds, salt) ==> t == Spiced(env, provided)
  {
    b.compare(provided + Pepper(env), stored)
  }

  lemma {:induction false} AppendCancelRight(p: string, q: string, x: string)
    requires p + x == q + x
    ensures p == q
  {
    assert |p| == |q|;
    assert p == (p + x)[..|p|];
    assert q == (q + x)[..|q|];
  }

  lemma {:induction false} AppendCancelLeft(p: string, x: string, y: string)
    requires p + x == p + y
    ensures x == y
  {
    assert x == (p + x)[|p|..];
    assert y == (p + y)[|p|..];
  }

  /** A password hashed under the policy verifies under the same policy. */
  lemma HashThenCompare(env: Env, b: Bcrypt, password: string, salt: string)
    requires Sound(b)
    ensures Compare(env, b, password, Hash(env, b, password, salt))
  {
  }

  /** Under the same policy, a hash verifies exactly one password. */
  lemma CompareOnlyAcceptsHashedPassword(env: Env, b: Bcrypt, provided: string, password: string, salt: string)
    requires Sound(b) && Binding(b)
    ensures Compare(env, b, provided, Hash(env, b, password, salt)) <==> provided == password
  {
    if Compare(env, b, provided, Hash(env, b, password, salt)) {
      AppendCancelRight(provided, password, Pepper(env));
    }
  }

  /**
   * Hash and compare are coupled through the pepper alone: a hash made under
   * one environment verifies under another exactly when the two peppers agree,
   * whatever cost factor each environment selects.
   */
  lemma PepperCoupling(hashEnv: Env, compareEnv: Env, b: Bcrypt, password: string, salt: string)
    requires Sound(b) && Binding(b)
    ensures Compare(compareEnv, b, password, Hash(hashEnv, b, password, salt))
            <==> Pepper(hashEnv) == Pepper(compareEnv)
  {
    if Compare(compareEnv, b, password, Hash(hashEnv, b, password, salt)) {
      AppendCancelLeft(password, Pepper(compareEnv), Pepper(hashEnv));
    }
  }
}
