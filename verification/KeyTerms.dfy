/** Symbolic cryptography for the Olm layers: keys are free terms, so two keys are equal only
    when they were derived the same way. The one equation is that of Diffie-Hellman. */
module KeyTerms {
  import opened Words

  type Plaintext = seq<byte>

  /** A Curve25519 key pair, named by its private key; anyone may know the public half. */
  datatype KeyPair = KeyPair(id: nat) {
    function Public(): PublicKey {
      PublicKey(id)
    }
  }
  datatype PublicKey = PublicKey(id: nat)

  /** The product of two private keys, whichever side computes it. */
  datatype Secret = Product(low: nat, high: nat)

  function SharedSecret(ours: KeyPair, theirs: PublicKey): Secret {
    if ours.id <= theirs.id then Product(ours.id, theirs.id) else Product(theirs.id, ours.id)
  }

  /** The concatenation of the three secrets of a session set-up. */
  datatype MasterSecret = MasterSecret(first: Secret, second: Secret, third: Secret)

  /** The first and the second half of what HKDF yields, by its salt and input. */
  datatype RootKey = FirstRoot(master: MasterSecret) | NextRoot(previous: RootKey, secret: Secret)
  datatype ChainKeyTerm =
    | FirstChain(master: MasterSecret)
    | NewChain(root: RootKey, secret: Secret)
    | Advanced(chain: ChainKeyTerm)

  /** HMAC of a chain key with the message key seed. */
  datatype MessageKeyTerm = MessageKeyOf(chain: ChainKeyTerm)

  /** HMAC of a chain key with the chain key seed, n times. */
  function AdvancedBy(chain: ChainKeyTerm, n: nat): ChainKeyTerm {
    if n == 0 then chain else Advanced(AdvancedBy(chain, n - 1))
  }

  lemma {:induction false} AdvancedBySplits(chain: ChainKeyTerm, a: nat, b: nat)
    ensures AdvancedBy(AdvancedBy(chain, a), b) == AdvancedBy(chain, a + b)
  {
    if b > 0 {
      AdvancedBySplits(chain, a, b - 1);
    }
  }

  /** Chains that do not start the same way never meet. */
  lemma {:induction false} AdvancedByInjective(x: ChainKeyTerm, y: ChainKeyTerm, a: nat, b: nat)
    requires !x.Advanced? && !y.Advanced?
    requires AdvancedBy(x, a) == AdvancedBy(y, b)
    ensures x == y && a == b
  {
    if a > 0 && b > 0 {
      AdvancedByInjective(x, y, a - 1, b - 1);
    }
  }

  function Depth(root: RootKey): nat {
    match root
    case FirstRoot(_) => 0
    case NextRoot(previous, _) => 1 + Depth(previous)
  }

  /** What the ratchet's header fields hold once read. */
  datatype KeyField = Absent | WrongLength | Key(key: PublicKey)

  /** An authenticated ciphertext opens under its own key, next to its own header. */
  datatype Ciphertext =
    | Sealed(key: MessageKeyTerm, version: nat, ratchetKey: PublicKey, counter: int, plaintext: Plaintext)
    | Junk(length: nat)
  {
    /** CBC pads to whole blocks, and always pads. */
    function Length(): nat {
      match this
      case Sealed(_, _, _, _, plaintext) => |plaintext| + 16 - |plaintext| % 16
      case Junk(length) => length
    }
  }
}
