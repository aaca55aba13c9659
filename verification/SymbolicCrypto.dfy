/**
 * Cryptography as terms: a key encapsulated for one key pair opens with that key pair alone, a
 * derived key is determined by the shared secret and the salt. Nothing else is known of it.
 */
module SymbolicCrypto {
  import opened Text

  /** The two key encapsulation mechanisms in use. */
  datatype Kem = MlKem768 | X25519

  datatype KeyPair = KeyPair(id: nat, kem: Kem)

  /** `seed` is the randomness of one encapsulation. */
  datatype Encapsulated = Encapsulated(keyPair: KeyPair, seed: nat)

  datatype Secret = Shared(keyPair: KeyPair, seed: nat) | Unrelated(keyPair: KeyPair, wrong: Encapsulated)

  datatype Key = Derived(secret: Secret, salt: string) | Unopened(master: nat)

  /** Characters of an encapsulated key in base64: 1088 bytes, or a 44-byte public key. */
  function EncapsulatedChars(e: Encapsulated): nat {
    match e.keyPair.kem
    case MlKem768 => 1452
    case X25519 => 60
  }

  function Encapsulate(keyPair: KeyPair, seed: nat): (Secret, Encapsulated) {
    (Shared(keyPair, seed), Encapsulated(keyPair, seed))
  }

  /** The other mechanism is an error; another key pair of the same one gets an unrelated secret. */
  function Decapsulate(keyPair: KeyPair, e: Encapsulated): Option<Secret> {
    if e.keyPair.kem != keyPair.kem then None
    else if e.keyPair == keyPair then Some(Shared(keyPair, e.seed))
    else Some(Unrelated(keyPair, e))
  }
}
