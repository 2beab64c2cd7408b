/** The two foreign libraries the server calls: bcrypt for password hashing
    and jsonwebtoken for bearer tokens. Their internals are not modelled;
    each is a function supplied from outside, and `Lawful` states the only
    facts the handlers rely on. */
module Crypto {
  import opened Wrappers

  /** The payload signed into a token: `{ id, email }`. */
  datatype Claims = Claims(id: int, email: string)

  /** `hash(password, salt)` is `bcrypt.hashSync` with the random salt made an
      argument; `compare` is `bcrypt.compareSync`; `sign` and `verify` are
      `jwt.sign`/`jwt.verify` under the server's secret (`None` is a throw). */
  datatype Primitives = Primitives(
    hash: (string, nat) -> string,
    compare: (string, string) -> bool,
    sign: Claims -> string,
    verify: string -> Option<Claims>)

  /** A password always matches its own hash, a token issued by `sign`
      verifies to exactly the signed claims, and a signed token is never empty. */
  ghost predicate Lawful(p: Primitives)
  {
    (forall password: string, salt: nat :: p.compare(password, p.hash(password, salt))) &&
    (forall c: Claims :: p.verify(p.sign(c)) == Some(c) && p.sign(c) != "")
  }
}
