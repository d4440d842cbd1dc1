/**
  Hash-linked derivative governance blocks of src/core/aps-txt.ts. A block is a
  JavaScript object; each derivative carries the hash of its parent's legacy text.
 */
module GovernanceChain {
  import opened Text
  import opened Json
  import opened Hashing
  import opened CanonicalLegacy

  type Block = map<Str, Value>

  const CONTEXT: Str := Ascii("@context")
  const TYPE: Str := Ascii("@type")
  const SOURCE_DID: Str := Ascii("source_did")
  const CONTENT_HASH: Str := Ascii("content_hash")
  const PUBLISHED_AT: Str := Ascii("published_at")
  const GENERATED_AT: Str := Ascii("governance_generated_at")
  const TERMS: Str := Ascii("terms")
  const REVOCATION_POLICY: Str := Ascii("revocation_policy")
  const EXPIRES_AT: Str := Ascii("expires_at")
  const PARENT_BLOCK_HASH: Str := Ascii("parent_block_hash")
  const DERIVATION_TYPE: Str := Ascii("derivation_type")
  const DERIVATIVE_AGENT_DID: Str := Ascii("derivative_agent_did")
  const SIGNATURE: Str := Ascii("signature")
  const CONTEXT_URL: Str := Ascii("https://aeoess.com/governance/v1")
  const BLOCK_TYPE: Str := Ascii("GovernanceBlock")

  /** `block[key]`, undefined when absent. */
  function Get(b: Block, key: Str): Value { if key in b then b[key] else Undefined }

  predicate Truthy(v: Value) {
    match v
    case Undefined => false
    case Null => false
    case Bool(b) => b
    case Num(n) => n != 0
    case String(s) => s != []
    case _ => true
  }

  function Sha256Id(h: Hash, s: Str): Str { Ascii("sha256:") + h(s) }

  function BlockText(b: Block): Str { LegacyText(Obj(b)) }

  // --- Creating and verifying ------------------------------------------------

  datatype Derivation = Derivation(
    content: Str, publicKey: Str, privateKey: Str, terms: Value, derivationType: Str, revocationPolicy: Value, now: Str)

  /** The members that every derivative has before it is signed; `did` maps a public key to its DID. */
  function OwnMembers(c: Crypto, did: Str -> Str, parent: Block, d: Derivation): Block {
    map[CONTEXT := String(CONTEXT_URL),
        TYPE := String(BLOCK_TYPE),
        SOURCE_DID := Get(parent, SOURCE_DID),
        CONTENT_HASH := String(Sha256Id(c.hash, d.content)),
        PUBLISHED_AT := String(d.now),
        GENERATED_AT := String(d.now),
        TERMS := d.terms,
        REVOCATION_POLICY := if Truthy(d.revocationPolicy) then d.revocationPolicy else Get(parent, REVOCATION_POLICY),
        PARENT_BLOCK_HASH := String(Sha256Id(c.hash, BlockText(parent))),
        DERIVATION_TYPE := String(d.derivationType),
        DERIVATIVE_AGENT_DID := String(did(d.publicKey))]
  }

  /** The derivative before it is signed; it expires with its parent. */
  function Unsigned(c: Crypto, did: Str -> Str, parent: Block, d: Derivation): Block {
    var block := OwnMembers(c, did, parent, d);
    if Truthy(Get(parent, EXPIRES_AT)) then block[EXPIRES_AT := Get(parent, EXPIRES_AT)] else block
  }

  /** Both the parent and the new block go through the write twin, which may refuse an unsafe integer. */
  function CreateChained(c: Crypto, did: Str -> Str, parent: Block, d: Derivation): Result<Block> {
    if LegacyForWrite(Obj(parent)).Err? then Err(UnsafeInteger)
    else
      var block := Unsigned(c, did, parent, d);
      var payload := LegacyForWrite(Obj(block));
      if payload.Err? then Err(payload.error)
      else Ok(block[SIGNATURE := String(c.sign(payload.value, d.privateKey))])
  }

  /** The parent check of verifyChainedBlock. */
  predicate LinkedTo(h: Hash, child: Block, parent: Block) {
    Get(child, PARENT_BLOCK_HASH) == String(Sha256Id(h, BlockText(parent)))
  }

  datatype Verdict = Verdict(valid: bool, chainValid: bool)

  /** Without a parent block the link is not checked. */
  function VerifyChained(c: Crypto, chain: Block, content: Str, key: Str, parent: Option<Block>): Verdict {
    var payload := BlockText(chain - {SIGNATURE});
    var sigValid := Get(chain, SIGNATURE).String? && c.verify(payload, Get(chain, SIGNATURE).s, key);
    var contentValid := Get(chain, CONTENT_HASH) == String(Sha256Id(c.hash, content));
    var chainValid := parent.None? || LinkedTo(c.hash, chain, parent.value);
    Verdict(sigValid && contentValid && chainValid, chainValid)
  }

  // --- Integrity of histories ------------------------------------------------

  ghost predicate LinkAt(h: Hash, blocks: seq<Block>, i: int)
    requires 1 <= i < |blocks|
  {
    LinkedTo(h, blocks[i], blocks[i - 1])
  }

  ghost predicate Linked(h: Hash, blocks: seq<Block>) {
    forall i | 1 <= i < |blocks| :: LinkAt(h, blocks, i)
  }

  ghost function Texts(blocks: seq<Block>): seq<Str> {
    seq(|blocks|, i requires 0 <= i < |blocks| => BlockText(blocks[i]))
  }

  /** All texts but the last. */
  ghost function Earlier(texts: seq<Str>): set<Str> { set i | 0 <= i < |texts| - 1 :: texts[i] }

  /** The texts hashed when every link of a history is checked: those of every block that is a parent. */
  ghost function HashedTexts(blocks: seq<Block>): set<Str> { Earlier(Texts(blocks)) }

  /** Equal after dropping null and undefined members at every depth. */
  ghost predicate SameBlock(b: Block, c: Block) { Strip(Obj(b)) == Strip(Obj(c)) }

  lemma {:induction false} StripKeepsParentHash(b: Block, c: Block)
    requires Get(b, PARENT_BLOCK_HASH).String? && Get(c, PARENT_BLOCK_HASH).String?
    requires Strip(Obj(b)) == Strip(Obj(c))
    ensures Get(b, PARENT_BLOCK_HASH) == Get(c, PARENT_BLOCK_HASH)
  {
    assert Strip(Obj(b)).members[PARENT_BLOCK_HASH] == b[PARENT_BLOCK_HASH];
    assert Strip(Obj(c)).members[PARENT_BLOCK_HASH] == c[PARENT_BLOCK_HASH];
  }

  /** Children with equal text name the same parent digest. */
  lemma {:induction false} SameParentDigest(h: Hash, child: Block, child': Block, parent: Block, parent': Block)
    requires LinkedTo(h, child, parent) && LinkedTo(h, child', parent')
    requires BlockText(child) == BlockText(child')
    ensures h(BlockText(parent)) == h(BlockText(parent'))
  {
    LegacyKernel(Obj(child), Obj(child'));
    StripKeepsParentHash(child, child');
    var a, b := Sha256Id(h, BlockText(parent)), Sha256Id(h, BlockText(parent'));
    assert a[7..] == h(BlockText(parent)) && b[7..] == h(BlockText(parent'));
  }

  /** Following equal texts back through equal digests. */
  lemma {:induction false} TextsAgree(h: Hash, xs: seq<Str>, ys: seq<Str>, back: nat)
    requires back < |xs| && back < |ys| && xs[|xs| - 1] == ys[|ys| - 1]
    requires forall i, j | 1 <= i < |xs| && 1 <= j < |ys| && xs[i] == ys[j] :: h(xs[i - 1]) == h(ys[j - 1])
    ensures xs[|xs| - 1 - back] == ys[|ys| - 1 - back] || Collides(h, Earlier(xs), Earlier(ys))
    decreases back
  {
    hide Earlier;
    if back == 0 {
    } else {
      TextsAgree(h, xs, ys, back - 1);
      var i, j := |xs| - back, |ys| - back;
      if xs[i] == ys[j] {
        assert h(xs[i - 1]) == h(ys[j - 1]);
        CollisionBefore(h, xs, ys, i - 1, j - 1);
      }
    }
  }

  lemma {:induction false} CollisionBefore(h: Hash, xs: seq<Str>, ys: seq<Str>, i: nat, j: nat)
    requires i < |xs| - 1 && j < |ys| - 1 && h(xs[i]) == h(ys[j])
    ensures xs[i] == ys[j] || Collides(h, Earlier(xs), Earlier(ys))
  {
    assert xs[i] in Earlier(xs) && ys[j] in Earlier(ys);
  }

  lemma {:induction false} LinkedDigests(h: Hash, xs: seq<Block>, ys: seq<Block>, i: nat, j: nat)
    requires Linked(h, xs) && Linked(h, ys) && 1 <= i < |xs| && 1 <= j < |ys|
    requires Texts(xs)[i] == Texts(ys)[j]
    ensures h(Texts(xs)[i - 1]) == h(Texts(ys)[j - 1])
  {
    hide BlockText;
    assert LinkAt(h, xs, i) && LinkAt(h, ys, j);
    SameParentDigest(h, xs[i], ys[j], xs[i - 1], ys[j - 1]);
  }

  lemma {:induction false} ChainTextsAgree(h: Hash, xs: seq<Block>, ys: seq<Block>, back: nat)
    requires back < |xs| && back < |ys| && Linked(h, xs) && Linked(h, ys)
    requires Texts(xs)[|xs| - 1] == Texts(ys)[|ys| - 1]
    ensures Texts(xs)[|xs| - 1 - back] == Texts(ys)[|ys| - 1 - back] || Collides(h, HashedTexts(xs), HashedTexts(ys))
  {
    hide BlockText;
    hide Linked;
    hide Earlier;
    var tx, ty := Texts(xs), Texts(ys);
    forall i, j | 1 <= i < |tx| && 1 <= j < |ty| && tx[i] == ty[j] ensures h(tx[i - 1]) == h(ty[j - 1]) {
      LinkedDigests(h, xs, ys, i, j);
    }
    TextsAgree(h, tx, ty, back);
  }

  lemma {:induction false} SameBlockAt(xs: seq<Block>, ys: seq<Block>, i: nat, j: nat)
    requires i < |xs| && j < |ys|
    ensures SameBlock(xs[i], ys[j]) <==> Texts(xs)[i] == Texts(ys)[j]
  {
    LegacyKernel(Obj(xs[i]), Obj(ys[j]));
  }

  /** Two linked histories with equal ends agree, counted back from the end, as far as both go. */
  lemma {:induction false} ChainIntegrity(h: Hash, xs: seq<Block>, ys: seq<Block>, back: nat)
    requires back < |xs| && back < |ys| && Linked(h, xs) && Linked(h, ys)
    requires SameBlock(xs[|xs| - 1], ys[|ys| - 1])
    ensures SameBlock(xs[|xs| - 1 - back], ys[|ys| - 1 - back]) || Collides(h, HashedTexts(xs), HashedTexts(ys))
  {
    hide BlockText;
    hide SameBlock;
    SameBlockAt(xs, ys, |xs| - 1, |ys| - 1);
    ChainTextsAgree(h, xs, ys, back);
    SameBlockAt(xs, ys, |xs| - 1 - back, |ys| - 1 - back);
  }

  // --- Chains that the constructor builds ------------------------------------

  lemma {:induction false} KeysDiffer()
    ensures SIGNATURE !in {CONTEXT, TYPE, SOURCE_DID, CONTENT_HASH, PUBLISHED_AT, GENERATED_AT, TERMS,
                           REVOCATION_POLICY, EXPIRES_AT, PARENT_BLOCK_HASH, DERIVATION_TYPE, DERIVATIVE_AGENT_DID}
    ensures EXPIRES_AT !in {CONTEXT, TYPE, SOURCE_DID, CONTENT_HASH, PUBLISHED_AT, GENERATED_AT, TERMS,
                            REVOCATION_POLICY, PARENT_BLOCK_HASH, DERIVATION_TYPE, DERIVATIVE_AGENT_DID}
    ensures SOURCE_DID !in {CONTENT_HASH, PUBLISHED_AT, GENERATED_AT, TERMS, REVOCATION_POLICY,
                            PARENT_BLOCK_HASH, DERIVATION_TYPE, DERIVATIVE_AGENT_DID}
    ensures CONTENT_HASH !in {PUBLISHED_AT, GENERATED_AT, TERMS, REVOCATION_POLICY,
                              PARENT_BLOCK_HASH, DERIVATION_TYPE, DERIVATIVE_AGENT_DID}
    ensures PARENT_BLOCK_HASH !in {DERIVATION_TYPE, DERIVATIVE_AGENT_DID}
    ensures TERMS !in {REVOCATION_POLICY, PARENT_BLOCK_HASH, DERIVATION_TYPE, DERIVATIVE_AGENT_DID}
    ensures REVOCATION_POLICY !in {PARENT_BLOCK_HASH, DERIVATION_TYPE, DERIVATIVE_AGENT_DID}
    ensures CONTEXT !in {TYPE, SOURCE_DID, CONTENT_HASH, PUBLISHED_AT, GENERATED_AT, TERMS, REVOCATION_POLICY,
                         PARENT_BLOCK_HASH, DERIVATION_TYPE, DERIVATIVE_AGENT_DID}
    ensures TYPE !in {SOURCE_DID, CONTENT_HASH, PUBLISHED_AT, GENERATED_AT, TERMS, REVOCATION_POLICY,
                      PARENT_BLOCK_HASH, DERIVATION_TYPE, DERIVATIVE_AGENT_DID}
    ensures PUBLISHED_AT !in {GENERATED_AT, TERMS, REVOCATION_POLICY, PARENT_BLOCK_HASH, DERIVATION_TYPE,
                              DERIVATIVE_AGENT_DID}
    ensures GENERATED_AT !in {TERMS, REVOCATION_POLICY, PARENT_BLOCK_HASH, DERIVATION_TYPE, DERIVATIVE_AGENT_DID}
    ensures DERIVATION_TYPE != DERIVATIVE_AGENT_DID
  {
    assert CONTEXT[0] == 0x40 && TYPE[0] == 0x40 && |CONTEXT| != |TYPE| && |DERIVATION_TYPE| < |DERIVATIVE_AGENT_DID|;
    assert SOURCE_DID[0] != EXPIRES_AT[0] && CONTENT_HASH[0] != PUBLISHED_AT[0];
    assert REVOCATION_POLICY[0] != PARENT_BLOCK_HASH[0];
  }

  /** The members of a derivative that the theorems below read. */
  lemma {:induction false} UnsignedMembers(c: Crypto, did: Str -> Str, parent: Block, d: Derivation)
    ensures var b := Unsigned(c, did, parent, d);
            && SIGNATURE !in b
            && Get(b, SOURCE_DID) == Get(parent, SOURCE_DID)
            && Get(b, CONTENT_HASH) == String(Sha256Id(c.hash, d.content))
            && Get(b, TERMS) == d.terms
            && Get(b, REVOCATION_POLICY) ==
               (if Truthy(d.revocationPolicy) then d.revocationPolicy else Get(parent, REVOCATION_POLICY))
            && Get(b, DERIVATIVE_AGENT_DID) == String(did(d.publicKey))
            && LinkedTo(c.hash, b, parent)
            && (if Truthy(Get(parent, EXPIRES_AT)) then Get(b, EXPIRES_AT) == Get(parent, EXPIRES_AT)
                else EXPIRES_AT !in b)
  {
    hide OwnMembers;
    hide BlockText;
    hide Truthy;
    hide Sha256Id;
    OwnMembersAre(c, did, parent, d);
    KeysDiffer();
  }

  lemma {:induction false} OwnMembersAre(c: Crypto, did: Str -> Str, parent: Block, d: Derivation)
    ensures var b := OwnMembers(c, did, parent, d);
            && SIGNATURE !in b && EXPIRES_AT !in b
            && Get(b, SOURCE_DID) == Get(parent, SOURCE_DID)
            && Get(b, CONTENT_HASH) == String(Sha256Id(c.hash, d.content))
            && Get(b, TERMS) == d.terms
            && Get(b, REVOCATION_POLICY) ==
               (if Truthy(d.revocationPolicy) then d.revocationPolicy else Get(parent, REVOCATION_POLICY))
            && Get(b, DERIVATIVE_AGENT_DID) == String(did(d.publicKey))
            && LinkedTo(c.hash, b, parent)
  {
    hide BlockText;
    hide Truthy;
    hide Sha256Id;
    KeysDiffer();
  }

  /** A derivative keeps its parent's source and expiry, and verifies against that parent. */
  lemma {:induction false} CreatedVerifies(c: Crypto, did: Str -> Str, parent: Block, d: Derivation)
    requires KeyPair(c, d.privateKey, d.publicKey)
    ensures var child := CreateChained(c, did, parent, d);
            child.Ok? ==> VerifyChained(c, child.value, d.content, d.publicKey, Some(parent)) == Verdict(true, true)
  {
    hide Unsigned;
    hide BlockText;
    hide LegacyText;
    if CreateChained(c, did, parent, d).Ok? {
      UnsignedMembers(c, did, parent, d);
      CreatedMembers(c, did, parent, d);
      var block := Unsigned(c, did, parent, d);
      assert BlockText(block) == LegacyForWrite(Obj(block)).value by { BlockTextWritten(block); }
    }
  }

  lemma {:induction false} BlockTextWritten(b: Block)
    requires LegacyForWrite(Obj(b)).Ok?
    ensures LegacyForWrite(Obj(b)).value == BlockText(b)
  {
  }

  /** The signature is the only member that signing adds. */
  lemma {:induction false} CreatedMembers(c: Crypto, did: Str -> Str, parent: Block, d: Derivation)
    requires CreateChained(c, did, parent, d).Ok?
    ensures var child, block := CreateChained(c, did, parent, d).value, Unsigned(c, did, parent, d);
            && child - {SIGNATURE} == block && LegacyForWrite(Obj(block)).Ok?
            && Get(child, SIGNATURE) == String(c.sign(LegacyForWrite(Obj(block)).value, d.privateKey))
            && forall key | key != SIGNATURE :: Get(child, key) == Get(block, key)
  {
    UnsignedMembers(c, did, parent, d);
    hide Unsigned;
    hide LegacyForWrite;
    KeysDiffer();
  }

  /** A run of derivations from a root block: every block so far, oldest first. */
  ghost predicate ChainRun(c: Crypto, did: Str -> Str, blocks: seq<Block>, ds: seq<Derivation>) {
    |blocks| == |ds| + 1 && forall i | 0 <= i < |ds| :: DerivedAt(c, did, blocks, ds, i)
  }

  ghost predicate DerivedAt(c: Crypto, did: Str -> Str, blocks: seq<Block>, ds: seq<Derivation>, i: nat)
    requires |blocks| == |ds| + 1 && i < |ds|
  {
    CreateChained(c, did, blocks[i], ds[i]) == Ok(blocks[i + 1])
  }

  lemma {:induction false} RunStep(c: Crypto, did: Str -> Str, blocks: seq<Block>, ds: seq<Derivation>, i: nat)
    requires ChainRun(c, did, blocks, ds) && i + 1 < |blocks|
    ensures Get(blocks[i + 1], SOURCE_DID) == Get(blocks[i], SOURCE_DID)
    ensures if Truthy(Get(blocks[i], EXPIRES_AT)) then Get(blocks[i + 1], EXPIRES_AT) == Get(blocks[i], EXPIRES_AT)
            else EXPIRES_AT !in blocks[i + 1]
    ensures LinkedTo(c.hash, blocks[i + 1], blocks[i])
  {
    assert DerivedAt(c, did, blocks, ds, i);
    UnsignedMembers(c, did, blocks[i], ds[i]);
    KeysDiffer();
  }

  /** At any depth the source is the root's, and so is the expiry: kept when the root has one, absent otherwise. */
  lemma {:induction false} ChainKeepsOrigin(c: Crypto, did: Str -> Str, blocks: seq<Block>, ds: seq<Derivation>, i: nat)
    requires ChainRun(c, did, blocks, ds) && i < |blocks|
    ensures Get(blocks[i], SOURCE_DID) == Get(blocks[0], SOURCE_DID)
    ensures Truthy(Get(blocks[0], EXPIRES_AT)) ==> Get(blocks[i], EXPIRES_AT) == Get(blocks[0], EXPIRES_AT)
    ensures !Truthy(Get(blocks[0], EXPIRES_AT)) && i > 0 ==> EXPIRES_AT !in blocks[i]
  {
    if i == 0 {
    } else {
      ChainKeepsOrigin(c, did, blocks, ds, i - 1);
      RunStep(c, did, blocks, ds, i - 1);
    }
  }

  /** Every run is a linked history, so ChainIntegrity applies to it. */
  lemma {:induction false} ChainRunLinked(c: Crypto, did: Str -> Str, blocks: seq<Block>, ds: seq<Derivation>)
    requires ChainRun(c, did, blocks, ds)
    ensures Linked(c.hash, blocks)
  {
    forall i | 1 <= i < |blocks| ensures LinkAt(c.hash, blocks, i) {
      RunStep(c, did, blocks, ds, i - 1);
    }
  }

  // --- What a verdict means --------------------------------------------------

  /** `member` is "sha256:" and the digest of `text`. */
  ghost predicate NamesDigest(h: Hash, b: Block, member: Str, text: Str) {
    Get(b, member) == String(Ascii("sha256:") + h(text))
  }

  /** The signature member is a string that verifies over the legacy text of the other members. */
  ghost predicate SignedBy(c: Crypto, b: Block, key: Str) {
    var member := Ascii("signature");
    member in b && b[member].String? && c.verify(LegacyText(Obj(b - {member})), b[member].s, key)
  }

  ghost predicate NamesParent(h: Hash, b: Block, parent: Block) {
    NamesDigest(h, b, Ascii("parent_block_hash"), LegacyText(Obj(parent)))
  }

  /** Valid exactly when the signature verifies, the content hash is the content's, and a given parent is
      the one named. */
  lemma {:induction false} VerdictMeans(c: Crypto, chain: Block, content: Str, key: Str, parent: Option<Block>)
    ensures var v := VerifyChained(c, chain, content, key, parent);
            && (v.chainValid <==> parent.None? || NamesParent(c.hash, chain, parent.value))
            && (v.valid <==>
                SignedBy(c, chain, key) && NamesDigest(c.hash, chain, Ascii("content_hash"), content) && v.chainValid)
  {
    hide LegacyText;
  }

  /** One signature under one key is good for one block: all members agree after stripping. */
  lemma {:induction false} OneBlockPerSignature(c: Crypto, a: Block, b: Block, x: Str, y: Str, key: Str,
                                                p: Option<Block>, q: Option<Block>)
    requires OneMessagePerSignature(c)
    requires VerifyChained(c, a, x, key, p).valid && VerifyChained(c, b, y, key, q).valid
    requires Get(a, SIGNATURE) == Get(b, SIGNATURE)
    ensures SameBlock(a, b)
  {
    VerdictMeans(c, a, x, key, p);
    VerdictMeans(c, b, y, key, q);
    hide VerifyChained;
    hide LegacyText;
    var a', b' := a - {SIGNATURE}, b - {SIGNATURE};
    assert LegacyText(Obj(a')) == LegacyText(Obj(b'));
    LegacyKernel(Obj(a'), Obj(b'));
    SignatureJoins(a, b);
  }

  lemma {:induction false} SignatureJoins(a: Block, b: Block)
    requires Get(a, SIGNATURE).String? && Get(a, SIGNATURE) == Get(b, SIGNATURE)
    requires Strip(Obj(a - {SIGNATURE})) == Strip(Obj(b - {SIGNATURE}))
    ensures SameBlock(a, b)
  {
    var m, n := Strip(Obj(a - {SIGNATURE})).members, Strip(Obj(b - {SIGNATURE})).members;
    assert Strip(Obj(a)).members == m[SIGNATURE := a[SIGNATURE]];
    assert Strip(Obj(b)).members == n[SIGNATURE := b[SIGNATURE]];
  }

  /** A valid block that is edited afterwards, its signature kept, no longer verifies, whatever it is
      checked against. */
  lemma {:induction false} EditRefused(c: Crypto, a: Block, edited: Block, x: Str, y: Str, key: Str,
                                       p: Option<Block>, q: Option<Block>)
    requires OneMessagePerSignature(c) && VerifyChained(c, a, x, key, p).valid
    requires Get(edited, SIGNATURE) == Get(a, SIGNATURE) && !SameBlock(a, edited)
    ensures !VerifyChained(c, edited, y, key, q).valid
  {
    hide VerifyChained;
    hide SameBlock;
    if VerifyChained(c, edited, y, key, q).valid { OneBlockPerSignature(c, a, edited, x, y, key, p, q); }
  }

  /** One block is valid for one content, or the two contents collide. */
  lemma {:induction false} OneContentPerBlock(c: Crypto, chain: Block, x: Str, y: Str, key: Str, key': Str,
                                              p: Option<Block>, q: Option<Block>)
    requires VerifyChained(c, chain, x, key, p).valid && VerifyChained(c, chain, y, key', q).valid
    ensures x == y || Collides(c.hash, {x}, {y})
  {
    VerdictMeans(c, chain, x, key, p);
    VerdictMeans(c, chain, y, key', q);
    hide VerifyChained;
    hide SignedBy;
    SamePrefixed(c.hash, x, y);
  }

  /** One block has one parent up to null stripping, or the texts of the two parents collide. */
  lemma {:induction false} OneParentPerBlock(c: Crypto, chain: Block, x: Str, y: Str, key: Str, key': Str,
                                             p: Block, q: Block)
    requires VerifyChained(c, chain, x, key, Some(p)).chainValid && VerifyChained(c, chain, y, key', Some(q)).chainValid
    ensures SameBlock(p, q) || Collides(c.hash, {BlockText(p)}, {BlockText(q)})
  {
    VerdictMeans(c, chain, x, key, Some(p));
    VerdictMeans(c, chain, y, key', Some(q));
    hide VerifyChained;
    hide LegacyText;
    SamePrefixed(c.hash, BlockText(p), BlockText(q));
    LegacyKernel(Obj(p), Obj(q));
  }

  lemma {:induction false} SamePrefixed(h: Hash, x: Str, y: Str)
    requires Ascii("sha256:") + h(x) == Ascii("sha256:") + h(y)
    ensures h(x) == h(y)
    ensures x == y || Collides(h, {x}, {y})
  {
    var a, b := Ascii("sha256:") + h(x), Ascii("sha256:") + h(y);
    assert a[7..] == h(x) && b[7..] == h(y);
    assert x in {x} && y in {y};
  }

  /** The values that JavaScript takes as false. */
  lemma {:induction false} TruthyMeans(v: Value)
    ensures !Truthy(v) <==> v in {Undefined, Null, Bool(false), Num(0), String([])}
  {
  }

  // --- What is created -------------------------------------------------------

  /** Creation fails exactly on an unsafe integer in the parent, in the terms, or in a revocation policy
      that is given. */
  lemma {:induction false} CreatedUnlessUnsafe(c: Crypto, did: Str -> Str, parent: Block, d: Derivation)
    ensures CreateChained(c, did, parent, d).Ok? <==>
            && !HasUnsafeInteger(Obj(parent)) && !HasUnsafeInteger(d.terms)
            && (Truthy(d.revocationPolicy) ==> !HasUnsafeInteger(d.revocationPolicy))
  {
    hide Ascii;
    hide LegacyText;
    hide Truthy;
    hide Unsigned;
    var b := Unsigned(c, did, parent, d);
    if !HasUnsafeInteger(Obj(parent)) {
      SafeMembers(parent);
      if !HasUnsafeInteger(d.terms) && (Truthy(d.revocationPolicy) ==> !HasUnsafeInteger(d.revocationPolicy)) {
        forall k | k in b ensures !HasUnsafeInteger(b[k]) { MemberSafe(c, did, parent, d, k); }
      } else {
        MemberUnsafe(c, did, parent, d);
      }
    }
  }

  lemma {:induction false} MemberUnsafe(c: Crypto, did: Str -> Str, parent: Block, d: Derivation)
    requires HasUnsafeInteger(d.terms) || (Truthy(d.revocationPolicy) && HasUnsafeInteger(d.revocationPolicy))
    ensures HasUnsafeInteger(Obj(Unsigned(c, did, parent, d)))
  {
    hide Ascii;
    hide LegacyText;
    hide Truthy;
    UnsignedMembers(c, did, parent, d);
    UnsignedKeys(c, did, parent, d);
    var b := Unsigned(c, did, parent, d);
    hide Unsigned;
    assert TERMS in b && REVOCATION_POLICY in b;
    if HasUnsafeInteger(d.terms) {
      assert HasUnsafeInteger(b[TERMS]);
    } else {
      assert HasUnsafeInteger(b[REVOCATION_POLICY]);
    }
  }

  lemma {:induction false} MemberSafe(c: Crypto, did: Str -> Str, parent: Block, d: Derivation, k: Str)
    requires k in Unsigned(c, did, parent, d)
    requires (forall k :: !HasUnsafeInteger(Get(parent, k))) && !HasUnsafeInteger(d.terms)
    requires Truthy(d.revocationPolicy) ==> !HasUnsafeInteger(d.revocationPolicy)
    ensures !HasUnsafeInteger(Unsigned(c, did, parent, d)[k])
  {
    hide Ascii;
    UnsignedMembers(c, did, parent, d);
    UnsignedKeys(c, did, parent, d);
    hide Unsigned;
    hide Truthy;
    hide LegacyText;
    var v := Unsigned(c, did, parent, d)[k];
    assert v == Get(Unsigned(c, did, parent, d), k);
  }

  lemma {:induction false} SafeMembers(b: Block)
    requires !HasUnsafeInteger(Obj(b))
    ensures forall k :: !HasUnsafeInteger(Get(b, k))
  {
  }

  const OWN_KEYS: set<Str> := {CONTEXT, TYPE, SOURCE_DID, CONTENT_HASH, PUBLISHED_AT, GENERATED_AT, TERMS,
                               REVOCATION_POLICY, PARENT_BLOCK_HASH, DERIVATION_TYPE, DERIVATIVE_AGENT_DID}

  lemma {:induction false} OwnKeys(c: Crypto, did: Str -> Str, parent: Block, d: Derivation)
    ensures OwnMembers(c, did, parent, d).Keys == OWN_KEYS
  {
    hide Ascii;
    hide BlockText;
    hide Truthy;
    hide Sha256Id;
  }

  lemma {:induction false} OwnTexts(c: Crypto, did: Str -> Str, parent: Block, d: Derivation)
    ensures var b := OwnMembers(c, did, parent, d);
            && Get(b, CONTEXT) == String(CONTEXT_URL) && Get(b, TYPE) == String(BLOCK_TYPE)
            && Get(b, PUBLISHED_AT) == String(d.now) && Get(b, GENERATED_AT) == String(d.now)
            && Get(b, DERIVATION_TYPE) == String(d.derivationType)
  {
    hide BlockText;
    hide Truthy;
    hide Sha256Id;
    KeysDiffer();
    hide Ascii;
  }

  /** A block has these members and, when its parent has a truthy one, an expiry. */
  lemma {:induction false} UnsignedKeys(c: Crypto, did: Str -> Str, parent: Block, d: Derivation)
    ensures var b := Unsigned(c, did, parent, d);
            && b.Keys == OWN_KEYS + (if Truthy(Get(parent, EXPIRES_AT)) then {EXPIRES_AT} else {})
            && Get(b, CONTEXT) == String(CONTEXT_URL) && Get(b, TYPE) == String(BLOCK_TYPE)
            && Get(b, PUBLISHED_AT) == String(d.now) && Get(b, GENERATED_AT) == String(d.now)
            && Get(b, DERIVATION_TYPE) == String(d.derivationType)
  {
    OwnKeys(c, did, parent, d);
    OwnTexts(c, did, parent, d);
    KeysDiffer();
    hide OwnMembers;
    hide Truthy;
    hide Ascii;
  }

  /** The names that the members are published under. */
  lemma {:induction false} MemberNames()
    ensures CONTEXT == Ascii("@context") && TYPE == Ascii("@type") && SOURCE_DID == Ascii("source_did")
    ensures CONTENT_HASH == Ascii("content_hash") && PUBLISHED_AT == Ascii("published_at")
    ensures GENERATED_AT == Ascii("governance_generated_at") && TERMS == Ascii("terms")
    ensures REVOCATION_POLICY == Ascii("revocation_policy") && EXPIRES_AT == Ascii("expires_at")
    ensures PARENT_BLOCK_HASH == Ascii("parent_block_hash") && DERIVATION_TYPE == Ascii("derivation_type")
    ensures DERIVATIVE_AGENT_DID == Ascii("derivative_agent_did") && SIGNATURE == Ascii("signature")
    ensures CONTEXT_URL == Ascii("https://aeoess.com/governance/v1") && BLOCK_TYPE == Ascii("GovernanceBlock")
  {
  }

  /** The members of a derivative, apart from its signature. */
  ghost predicate Derives(c: Crypto, did: Str -> Str, parent: Block, d: Derivation, b: Block) {
    && Get(b, CONTEXT) == String(CONTEXT_URL) && Get(b, TYPE) == String(BLOCK_TYPE)
    && Get(b, SOURCE_DID) == Get(parent, SOURCE_DID)
    && NamesDigest(c.hash, b, CONTENT_HASH, d.content)
    && Get(b, PUBLISHED_AT) == String(d.now) && Get(b, GENERATED_AT) == String(d.now)
    && Get(b, TERMS) == d.terms
    && Get(b, REVOCATION_POLICY) ==
       (if Truthy(d.revocationPolicy) then d.revocationPolicy else Get(parent, REVOCATION_POLICY))
    && Get(b, EXPIRES_AT) == (if Truthy(Get(parent, EXPIRES_AT)) then Get(parent, EXPIRES_AT) else Undefined)
    && NamesDigest(c.hash, b, PARENT_BLOCK_HASH, LegacyText(Obj(parent)))
    && Get(b, DERIVATION_TYPE) == String(d.derivationType)
    && Get(b, DERIVATIVE_AGENT_DID) == String(did(d.publicKey))
  }

  lemma {:induction false} UnsignedDerives(c: Crypto, did: Str -> Str, parent: Block, d: Derivation)
    ensures Derives(c, did, parent, d, Unsigned(c, did, parent, d))
  {
    hide Ascii;
    hide LegacyText;
    hide Truthy;
    UnsignedMembers(c, did, parent, d);
    UnsignedKeys(c, did, parent, d);
    hide Unsigned;
  }

  /** Every member of the created block, under its published name; the signature covers the text of all the others. */
  lemma {:induction false} CreatedBlock(c: Crypto, did: Str -> Str, parent: Block, d: Derivation)
    requires CreateChained(c, did, parent, d).Ok?
    ensures var b := CreateChained(c, did, parent, d).value;
            && Derives(c, did, parent, d, b)
            && Get(b, SIGNATURE) == String(c.sign(LegacyText(Obj(b - {SIGNATURE})), d.privateKey))
            && b.Keys == OWN_KEYS + {SIGNATURE} + (if Truthy(Get(parent, EXPIRES_AT)) then {EXPIRES_AT} else {})
  {
    hide Unsigned;
    hide CreateChained;
    hide LegacyForWrite;
    hide Derives;
    hide Ascii;
    hide LegacyText;
    hide Truthy;
    var b, block := CreateChained(c, did, parent, d).value, Unsigned(c, did, parent, d);
    UnsignedDerives(c, did, parent, d);
    UnsignedKeys(c, did, parent, d);
    CreatedMembers(c, did, parent, d);
    BlockTextWritten(block);
    SameDerivation(c, did, parent, d, block, b);
    assert SIGNATURE in b && b.Keys == (b - {SIGNATURE}).Keys + {SIGNATURE};
  }

  lemma {:induction false} SameDerivation(c: Crypto, did: Str -> Str, parent: Block, d: Derivation, a: Block, b: Block)
    requires Derives(c, did, parent, d, a) && forall key | key != SIGNATURE :: Get(b, key) == Get(a, key)
    ensures Derives(c, did, parent, d, b)
  {
    KeysDiffer();
    hide Ascii;
    hide Get;
    hide LegacyText;
    hide Truthy;
  }
}
