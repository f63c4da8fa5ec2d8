/**
 Authenticated encryption as a term algebra. A stored text is either raw characters or the output of
 one of the ciphers, which opens under the key that sealed it and under no other. Every cipher puts
 its own prefix before its output; raw characters that happen to begin with the prefix are taken for
 a ciphertext by the prefix test and open under no key.
 */
module Sealing {
  import opened Wrappers

  type Key = string

  datatype Scheme = AppConfigV1 | UserMasterKey | AppKey

  datatype Text =
    | Raw(chars: string)
    | Sealed(scheme: Scheme, key: Key, nonce: nat, plain: Text)

  const EMPTY := Raw("")

  function Prefix(scheme: Scheme): string {
    match scheme
    case AppConfigV1 => "enc:v1:"
    case UserMasterKey => "$mk$"
    case AppKey => "$app$"
  }

  predicate HasPrefix(scheme: Scheme, t: Text) {
    match t
    case Raw(chars) => Prefix(scheme) <= chars
    case Sealed(s, _, _, _) => s == scheme
  }

  function Seal(scheme: Scheme, key: Key, nonce: nat, t: Text): Text {
    Sealed(scheme, key, nonce, t)
  }

  function Open(scheme: Scheme, key: Key, t: Text): Result<Text> {
    if t.Sealed? && t.scheme == scheme && t.key == key then Success(t.plain) else Failure
  }

  /** What is sealed has its own cipher's prefix and opens under the same key and cipher only. */
  lemma SealOpensIff(scheme: Scheme, key: Key, nonce: nat, t: Text, other: Scheme, otherKey: Key)
    ensures HasPrefix(other, Seal(scheme, key, nonce, t)) <==> other == scheme
    ensures Open(other, otherKey, Seal(scheme, key, nonce, t))
            == if other == scheme && otherKey == key then Success(t) else Failure
  {
  }

  /** Raw characters have a prefix if they begin with its letters, and never open. */
  lemma RawText(chars: string, key: Key)
    ensures HasPrefix(AppConfigV1, Raw(chars)) <==> "enc:v1:" <= chars
    ensures HasPrefix(UserMasterKey, Raw(chars)) <==> "$mk$" <= chars
    ensures HasPrefix(AppKey, Raw(chars)) <==> "$app$" <= chars
    ensures forall scheme :: Open(scheme, key, Raw(chars)).Failure?
  {
  }
}
