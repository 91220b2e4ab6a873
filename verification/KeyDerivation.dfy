/** Key derivation along a path: SLIP-0010 for ed25519, and the BIP-32 fold for secp256k1. */
module KeyDerivation {
  import opened Domain
  import opened DerivationPaths

  /** HMAC-SHA512, uninterpreted: (key, message) to 64 bytes. */
  datatype Hmac = Hmac(sum: (Bytes, Bytes) -> Bytes) {
    ghost predicate Sound() {
      forall k, m :: |sum(k, m)| == 64
    }
  }

  /** "ed25519 seed" in ASCII. */
  const ED25519_SEED: Bytes := [0x65, 0x64, 0x32, 0x35, 0x35, 0x31, 0x39, 0x20, 0x73, 0x65, 0x65, 0x64]

  datatype Node = Node(key: Bytes, chainCode: Bytes)

  function SplitDigest(digest: Bytes): (node: Node)
    requires |digest| == 64
    ensures |node.key| == 32 && |node.chainCode| == 32 && node.key + node.chainCode == digest
  {
    Node(digest[..32], digest[32..])
  }

  /** Big-endian four-byte form of an index. */
  function Ser32(i: Index): (b: Bytes)
    ensures |b| == 4
    ensures b[0] as int * 0x100_0000 + b[1] as int * 0x1_0000 + b[2] as int * 0x100 + b[3] as int == i
  {
    var a := i / 256;
    var b := a / 256;
    [b / 256, b % 256, a % 256, i % 256]
  }

  /** The message hashed for a hardened child: a zero byte, the private key, the index. */
  function ChildMessage(key: Bytes, i: Index): Bytes {
    [0] + key + Ser32(i)
  }

  function Master(h: Hmac, seed: Bytes): (node: Node)
    requires h.Sound()
    ensures |node.key| == 32
  {
    SplitDigest(h.sum(ED25519_SEED, seed))
  }

  /** The child-key step of SLIP-0010. */
  function Child(h: Hmac, node: Node, i: Index): (child: Node)
    requires h.Sound()
    ensures |child.key| == 32
  {
    SplitDigest(h.sum(node.chainCode, ChildMessage(node.key, i)))
  }

  /** From a node down a list of indices, first index first. */
  function Descend(h: Hmac, node: Node, indices: seq<Index>): Node
    requires h.Sound()
    decreases |indices|
  {
    if indices == [] then node else Descend(h, Child(h, node, indices[0]), indices[1..])
  }

  predicate AllHardened(indices: seq<Index>) {
    forall i | i in indices :: i >= HARDENED_KEY_START
  }

  /** `digest` is the 64 bytes of the node: its key and behind it its chain code. */
  ghost predicate IsDigestOf(digest: Bytes, node: Node) {
    |node.key| == 32 && |node.chainCode| == 32 && digest == node.key + node.chainCode
  }

  ghost predicate IsBigEndian(b: Bytes, i: Index) {
    |b| == 4
    && b[0] as int * 0x100_0000 + b[1] as int * 0x1_0000 + b[2] as int * 0x100 + b[3] as int == i
  }

  /** The master node comes from the seed, keyed with the text "ed25519 seed". */
  ghost predicate IsMaster(h: Hmac, seed: Bytes, node: Node) {
    exists text: Bytes ::
      && |text| == 12 && (forall k | 0 <= k < 12 :: text[k] as int == "ed25519 seed"[k] as int)
      && IsDigestOf(h.sum(text, seed), node)
  }

  /** The child comes from a zero byte, the parent's key and the index, keyed with the parent's chain code. */
  ghost predicate IsChild(h: Hmac, parent: Node, i: Index, child: Node) {
    exists b :: IsBigEndian(b, i) && IsDigestOf(h.sum(parent.chainCode, [0] + parent.key + b), child)
  }

  /** A chain of nodes along the indices, each the child of the one before. */
  ghost predicate IsChain(h: Hmac, nodes: seq<Node>, indices: seq<Index>) {
    && |nodes| == |indices| + 1
    && forall j | 0 <= j < |indices| :: IsChild(h, nodes[j], indices[j], nodes[j + 1])
  }

  lemma SeedText()
    ensures forall k | 0 <= k < 12 :: ED25519_SEED[k] as int == "ed25519 seed"[k] as int
  {
    var text := "ed25519 seed";
    assert text[0] == 'e' && text[1] == 'd' && text[2] == '2' && text[3] == '5' && text[4] == '5' && text[5] == '1';
    assert text[6] == '9' && text[7] == ' ' && text[8] == 's' && text[9] == 'e' && text[10] == 'e' && text[11] == 'd';
  }

  lemma MasterIsMaster(h: Hmac, seed: Bytes)
    requires h.Sound()
    ensures IsMaster(h, seed, Master(h, seed))
  {
    SeedText();
    assert |ED25519_SEED| == 12;
    assert IsDigestOf(h.sum(ED25519_SEED, seed), Master(h, seed));
  }

  lemma ChildIsChild(h: Hmac, node: Node, i: Index)
    requires h.Sound()
    ensures IsChild(h, node, i, Child(h, node, i))
  {
    assert IsBigEndian(Ser32(i), i);
  }

  /** Four bytes have one value, so a node has one child per index, and a seed one master. */
  lemma ChildIsUnique(h: Hmac, parent: Node, i: Index, child: Node)
    requires h.Sound() && IsChild(h, parent, i, child)
    ensures child == Child(h, parent, i)
  {
    var b :| IsBigEndian(b, i) && IsDigestOf(h.sum(parent.chainCode, [0] + parent.key + b), child);
    assert b == Ser32(i) by {
      BigEndianIsUnique(b, Ser32(i), i);
    }
    assert child == SplitDigest(h.sum(parent.chainCode, ChildMessage(parent.key, i)));
  }

  lemma BigEndianIsUnique(a: Bytes, b: Bytes, i: Index)
    requires IsBigEndian(a, i) && IsBigEndian(b, i)
    ensures a == b
  {
    var p, q := a[0] as int * 256 + a[1] as int, b[0] as int * 256 + b[1] as int;
    LastByte(p * 256 + a[2] as int, a[3], q * 256 + b[2] as int, b[3]);
    LastByte(p, a[2], q, b[2]);
    LastByte(a[0], a[1], b[0], b[1]);
  }

  lemma LastByte(x: nat, a: Byte, y: nat, b: Byte)
    requires x * 256 + a == y * 256 + b
    ensures x == y && a == b
  {
  }

  /** The descent is the end of the chain of nodes, and there is no other chain from the same node. */
  lemma {:induction false} DescentEndsTheChain(h: Hmac, node: Node, indices: seq<Index>) returns (nodes: seq<Node>)
    requires h.Sound()
    ensures IsChain(h, nodes, indices) && nodes[0] == node && nodes[|indices|] == Descend(h, node, indices)
    decreases |indices|
  {
    nodes := [node];
    if indices != [] {
      ChildIsChild(h, node, indices[0]);
      var rest := DescentEndsTheChain(h, Child(h, node, indices[0]), indices[1..]);
      nodes := [node] + rest;
      forall j | 0 <= j < |indices|
        ensures IsChild(h, nodes[j], indices[j], nodes[j + 1])
      {
        assert j > 0 ==> IsChild(h, rest[j - 1], indices[1..][j - 1], rest[j]);
      }
    }
  }

  lemma {:induction false} ChainsEndInTheDescent(h: Hmac, nodes: seq<Node>, indices: seq<Index>)
    requires h.Sound() && IsChain(h, nodes, indices)
    ensures nodes[|indices|] == Descend(h, nodes[0], indices)
    decreases |indices|
  {
    if indices != [] {
      ChildIsUnique(h, nodes[0], indices[0], nodes[1]);
      forall j | 0 <= j < |indices[1..]|
        ensures IsChild(h, nodes[1..][j], indices[1..][j], nodes[1..][j + 1])
      {
        assert IsChild(h, nodes[j + 1], indices[j + 1], nodes[j + 2]);
      }
      ChainsEndInTheDescent(h, nodes[1..], indices[1..]);
    }
  }

  /**
   * Exactly the paths that parse to hardened indices only have a key; it is the end of the descent, and of the chain of
   * nodes from the master along the indices.
   */
  method DeriveKeyEd25519(h: Hmac, seed: Bytes, path: DerivationPath)
    returns (key: Option<Bytes>, ghost nodes: seq<Node>)
    requires h.Sound()
    ensures key.Some? <==> ParsedPath(path).Some? && forall i | i in ParsedPath(path).value :: i >= 0x8000_0000
    ensures key.Some? ==> |key.value| == 32
                          && key.value == Descend(h, Master(h, seed), ParsedPath(path).value).key
    ensures key.Some? ==> IsChain(h, nodes, ParsedPath(path).value) && IsMaster(h, seed, nodes[0])
                          && key.value == nodes[|nodes| - 1].key
  {
    nodes := [];
    var I := h.sum(ED25519_SEED, seed);
    var k, chainCode := I[..32], I[32..];
    var parsed := ParsePath(path);
    if parsed.None? {
      return None, nodes;
    }
    var indices := parsed.value;
    for n := 0 to |indices|
      invariant AllHardened(indices[..n])
      invariant |k| == 32
      invariant Descend(h, Node(k, chainCode), indices[n..]) == Descend(h, Master(h, seed), indices)
    {
      var idx := indices[n];
      assert idx in indices && indices[..n + 1] == indices[..n] + [idx];
      if idx < HARDENED_KEY_START {
        return None, nodes;
      }
      var b := Ser32(idx);
      var data: Bytes := [0];
      data := data + k;
      data := data + b;
      assert data == ChildMessage(k, idx);
      assert indices[n..][1..] == indices[n + 1..];
      I := h.sum(chainCode, data);
      k, chainCode := I[..32], I[32..];
    }
    assert indices[..|indices|] == indices;
    MasterIsMaster(h, seed);
    nodes := DescentEndsTheChain(h, Master(h, seed), indices);
    return Some(k), nodes;
  }

  /** The message fixes both the key and the index: no two children of one node share a message. */
  lemma MessageLayout(k: Bytes, i: Index, l: Bytes, j: Index)
    requires |k| == 32 && |l| == 32
    ensures |ChildMessage(k, i)| == 37
    ensures ChildMessage(k, i) == ChildMessage(l, j) <==> k == l && i == j
  {
    var m, n := ChildMessage(k, i), ChildMessage(l, j);
    assert m[1..33] == k && n[1..33] == l;
    assert m[33..] == Ser32(i) && n[33..] == Ser32(j);
  }

  /** Descending along p ++ q is descending along q from where p leads. */
  lemma {:induction false} DescentComposes(h: Hmac, node: Node, p: seq<Index>, q: seq<Index>)
    requires h.Sound()
    ensures Descend(h, node, p + q) == Descend(h, Descend(h, node, p), q)
    decreases |p|
  {
    if p == [] {
      assert p + q == q;
    } else {
      assert (p + q)[0] == p[0] && (p + q)[1..] == p[1..] + q;
      DescentComposes(h, Child(h, node, p[0]), p[1..], q);
    }
  }

  /** The last index is the last step: deriving one level deeper is one child step from the parent. */
  lemma DescentOfChild(h: Hmac, node: Node, p: seq<Index>, i: Index)
    requires h.Sound()
    ensures Descend(h, node, p + [i]) == Child(h, Descend(h, node, p), i)
  {
    DescentComposes(h, node, p, [i]);
    assert [i][1..] == [];
  }

  // ----- BIP-32 ------------------------------------------------------------------------------

  /** The library's extended keys: a master from a seed, a child from a key; either may fail. */
  datatype Bip32<!K> = Bip32(master: Bytes -> Option<K>, derive: (K, Index) -> Option<K>)

  function Derived<K>(b: Bip32<K>, key: K, indices: seq<Index>): Option<K> {
    if indices == [] then Some(key)
    else
      match b.derive(key, indices[0])
      case None => None
      case Some(child) => Derived(b, child, indices[1..])
  }

  /** `keys` starts with the master and goes on along the indices, each key derived from the one before at its index. */
  ghost predicate IsKeyChain<K>(b: Bip32<K>, seed: Bytes, keys: seq<K>, indices: seq<Index>) {
    && |keys| == |indices| + 1
    && b.master(seed) == Some(keys[0])
    && forall j | 0 <= j < |indices| :: b.derive(keys[j], indices[j]) == Some(keys[j + 1])
  }

  /**
   * The key at the end of the chain of keys along the path's indices. There is none exactly when the seed has no
   * master, the path does not parse, or one key of the chain has no child at the next index.
   */
  method DeriveKey<K>(b: Bip32<K>, seed: Bytes, path: DerivationPath) returns (key: Option<K>, ghost keys: seq<K>)
    ensures key.Some? ==>
              && ParsedPath(path).Some? && IsKeyChain(b, seed, keys, ParsedPath(path).value)
              && key.value == keys[|keys| - 1]
              && key == Derived(b, b.master(seed).value, ParsedPath(path).value)
    ensures key.None? ==>
              || b.master(seed).None?
              || ParsedPath(path).None?
              || (&& 0 < |keys| <= |ParsedPath(path).value|
                  && IsKeyChain(b, seed, keys, ParsedPath(path).value[..|keys| - 1])
                  && b.derive(keys[|keys| - 1], ParsedPath(path).value[|keys| - 1]).None?)
  {
    keys := [];
    var master := b.master(seed);
    if master.None? {
      return None, keys;
    }
    var parsed := ParsePath(path);
    if parsed.None? {
      return None, keys;
    }
    var indices := parsed.value;
    var current := master.value;
    keys := [current];
    for n := 0 to |indices|
      invariant IsKeyChain(b, seed, keys, indices[..n]) && current == keys[n]
      invariant Derived(b, current, indices[n..]) == Derived(b, master.value, indices)
    {
      assert indices[n..][1..] == indices[n + 1..];
      var child := b.derive(current, indices[n]);
      if child.None? {
        return None, keys;
      }
      current := child.value;
      keys := keys + [current];
      assert indices[..n + 1] == indices[..n] + [indices[n]];
    }
    assert indices[..|indices|] == indices;
    return Some(current), keys;
  }

  /** A chain of keys can be gone in one way only, so a key and a failure exclude each other. */
  lemma {:induction false} KeyChainsAgree<K>(b: Bip32<K>, seed: Bytes, p: seq<K>, q: seq<K>, indices: seq<Index>,
                                              n: nat)
    requires n <= |indices| && IsKeyChain(b, seed, p, indices) && IsKeyChain(b, seed, q, indices[..n])
    ensures q == p[..n + 1]
  {
    if n > 0 {
      assert IsKeyChain(b, seed, q[..n], indices[..n - 1]);
      KeyChainsAgree(b, seed, p, q[..n], indices, n - 1);
      assert q[..n][n - 1] == p[..n][n - 1];
      assert b.derive(q[n - 1], indices[..n][n - 1]) == Some(q[n]) && b.derive(p[n - 1], indices[n - 1]) == Some(p[n]);
      assert q == q[..n] + [q[n]] && p[..n + 1] == p[..n] + [p[n]];
    }
  }

  /** The fold is pinned down by its start and its step: no index, no step; one more index, one more child. */
  lemma DerivationOfChild<K>(b: Bip32<K>, key: K, p: seq<Index>, i: Index)
    ensures Derived(b, key, []) == Some(key)
    ensures Derived(b, key, p + [i]) ==
            match Derived(b, key, p) case None => None case Some(mid) => b.derive(mid, i)
  {
    DerivationComposes(b, key, p, [i]);
    assert [i][1..] == [];
  }

  /** BIP-32 derivation composes too, as long as the first leg succeeds. */
  lemma {:induction false} DerivationComposes<K>(b: Bip32<K>, key: K, p: seq<Index>, q: seq<Index>)
    ensures Derived(b, key, p + q) ==
            match Derived(b, key, p) case None => None case Some(mid) => Derived(b, mid, q)
  {
    if p == [] {
      assert p + q == q;
    } else {
      assert (p + q)[0] == p[0] && (p + q)[1..] == p[1..] + q;
      if b.derive(key, p[0]).Some? {
        DerivationComposes(b, b.derive(key, p[0]).value, p[1..], q);
      }
    }
  }

  // ----- The paths the wallet uses -----------------------------------------------------------

  function Bip44CoinType(chain: ChainId): nat {
    match chain
    case Ethereum => 60
    case Base => 60
    case Bitcoin => 0
    case Solana => 501
    case Tron => 195
  }

  function Bip44Path(chain: ChainId): DerivationPath {
    "m/44'/" + Decimal(Bip44CoinType(chain)) + "'/0'/0/0"
  }

  /** Purpose 44', coin type', account 0', and two unhardened zeros. */
  function Bip44Indices(chain: ChainId): seq<Index> {
    [44 + HARDENED_KEY_START, Bip44CoinType(chain) + HARDENED_KEY_START, HARDENED_KEY_START, 0, 0]
  }

  /** The paths as texts, chain by chain. */
  lemma Bip44Texts()
    ensures Bip44Path(Bitcoin) == "m/44'/0'/0'/0/0"
    ensures Bip44Path(Ethereum) == "m/44'/60'/0'/0/0" && Bip44Path(Base) == "m/44'/60'/0'/0/0"
    ensures Bip44Path(Solana) == "m/44'/501'/0'/0/0"
    ensures Bip44Path(Tron) == "m/44'/195'/0'/0/0"
  {
    CoinTexts();
    LargeCoinTexts();
  }

  lemma CoinTexts()
    ensures Decimal(0) == "0" && Decimal(60) == "60"
  {
    assert Decimal(6) == "6";
  }

  lemma LargeCoinTexts()
    ensures Decimal(501) == "501" && Decimal(195) == "195"
  {
    assert Decimal(5) == "5" && Decimal(50) == "50";
    assert Decimal(1) == "1" && Decimal(19) == "19";
  }

  /** The formatted path is what the printer makes of those indices, so it parses to them. */
  lemma Bip44PathMeaning(chain: ChainId)
    ensures ParsedPath(Bip44Path(chain)) == Some(Bip44Indices(chain))
  {
    Bip44PathIsPrinted(chain);
    ParseOfPrint(Bip44Indices(chain));
  }

  lemma Bip44PathIsPrinted(chain: ChainId)
    ensures Bip44Path(chain) == PrintPath(Bip44Indices(chain))
  {
    var coin := Decimal(Bip44CoinType(chain)) + "'";
    Bip44Printed(chain);
    JoinOfFive("44'", coin);
    Bip44Text(Decimal(Bip44CoinType(chain)));
  }

  lemma Bip44Printed(chain: ChainId)
    ensures PrintAll(Bip44Indices(chain)) == ["44'", Decimal(Bip44CoinType(chain)) + "'", "0'", "0", "0"]
  {
    var printed, indices := PrintAll(Bip44Indices(chain)), Bip44Indices(chain);
    SmallIndices();
    assert printed[0] == PrintIndex(indices[0]) && printed[1] == PrintIndex(indices[1]);
    assert printed[2] == PrintIndex(indices[2]) && printed[3] == PrintIndex(indices[3]);
    assert printed[4] == PrintIndex(indices[4]);
  }

  lemma Bip44Text(digits: string)
    ensures PATH_PREFIX + ("44'" + "/" + (digits + "'" + "/0'/0/0")) == "m/44'/" + digits + "'/0'/0/0"
  {
  }

  lemma SmallIndices()
    ensures PrintIndex(44 + HARDENED_KEY_START) == "44'"
    ensures PrintIndex(HARDENED_KEY_START) == "0'" && PrintIndex(0) == "0"
  {
    assert Decimal(4) == "4";
    assert Decimal(44) == "4" + "4";
  }

  lemma JoinOfFive(a: string, b: string)
    ensures Join([a, b, "0'", "0", "0"], '/') == a + "/" + (b + "/0'/0/0")
  {
    assert Join(["0"], '/') == "0";
    JoinCons("0", ["0"]);
    JoinCons("0'", ["0", "0"]);
    JoinCons(b, ["0'", "0", "0"]);
    JoinCons(a, [b, "0'", "0", "0"]);
    assert [a] + [b, "0'", "0", "0"] == [a, b, "0'", "0", "0"];
    assert b + "/" + "0'/0/0" == b + "/0'/0/0";
  }

  lemma JoinCons(p: string, rest: seq<string>)
    requires rest != []
    ensures Join([p] + rest, '/') == p + "/" + Join(rest, '/')
  {
    assert ([p] + rest)[1..] == rest;
  }

  /** Their indices as numbers: 2^31 is added to what is quoted. */
  lemma Bip44Numbers(chain: ChainId)
    ensures var coin := match chain
                        case Bitcoin => 0
                        case Ethereum => 60
                        case Base => 60
                        case Solana => 501
                        case Tron => 195;
            ParsedPath(Bip44Path(chain)) == Some([0x8000_002C, 0x8000_0000 + coin, 0x8000_0000, 0, 0])
  {
    Bip44PathMeaning(chain);
  }

  /** Hence ed25519 derivation, which admits hardened indices only, has no key on it for any chain. */
  lemma Bip44PathIsNotAllHardened(chain: ChainId)
    ensures ParsedPath(Bip44Path(chain)).Some? && !AllHardened(ParsedPath(Bip44Path(chain)).value)
  {
    Bip44PathMeaning(chain);
    var indices := ParsedPath(Bip44Path(chain)).value;
    assert indices[3] in indices && indices[3] < HARDENED_KEY_START;
  }
}
