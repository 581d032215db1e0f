/**
  Rotating vault keys (`vault.rs`) over an ideal cipher: a page opens only with the key, nonce
  and associated data it was sealed with, and a tag can only come from sealing.
  */
module Vault {
  import opened Wrappers
  import opened Words
  import Arith

  const PAGE_SIZE: nat := 4096
  const MAX_CHUNK: nat := 512

  datatype VaultError = NotOwner | IntegrityFailure

  /** Keys are told apart by number; each rotation draws one never drawn before. */
  type Key = nat

  type Bytes = seq<nat>

  /** What a page frame holds: data, or the sealed form of what it held. */
  datatype Page = Data(data: nat) | Sealed(key: Key, nonce: Bytes, aad: Bytes, inner: Page)

  datatype Tag = Tag(key: Key, nonce: Bytes, aad: Bytes, inner: Page)

  /** Opening succeeds only on a page and tag sealed with the same key, nonce and associated data. */
  function Decrypt(key: Key, nonce: Bytes, aad: Bytes, page: Page, tag: Tag): Option<Page> {
    if page.Sealed? && page.key == key && page.nonce == nonce && page.aad == aad
      && tag == Tag(key, nonce, aad, page.inner)
    then Some(page.inner) else None
  }

  // ----- nonces and associated data ------------------------------------------------------

  function Power256(n: nat): nat {
    if n == 0 then 1 else 256 * Power256(n - 1)
  }

  /** `to_le_bytes` of an `n`-byte integer. */
  function LittleEndian(x: nat, n: nat): (s: Bytes)
    ensures |s| == n
    decreases n
  {
    if n == 0 then [] else [x % 256] + LittleEndian(x / 256, n - 1)
  }

  lemma {:induction false} LittleEndianInjective(x: nat, y: nat, n: nat)
    requires x < Power256(n) && y < Power256(n) && LittleEndian(x, n) == LittleEndian(y, n)
    ensures x == y
    decreases n
  {
    if n > 0 {
      assert LittleEndian(x, n)[0] == x % 256 && LittleEndian(y, n)[0] == y % 256;
      assert LittleEndian(x, n)[1..] == LittleEndian(x / 256, n - 1);
      assert LittleEndian(y, n)[1..] == LittleEndian(y / 256, n - 1);
      LittleEndianInjective(x / 256, y / 256, n - 1);
    }
  }

  lemma Widths()
    ensures Power256(2) == U16_SIZE && Power256(4) == U32_SIZE && Power256(8) == U64_SIZE
  {
    assert Power256(2) == 256 * Power256(1);
    assert Power256(4) == 256 * (256 * Power256(2));
    assert Power256(6) == 256 * (256 * Power256(4));
    assert Power256(8) == 256 * (256 * Power256(6));
  }

  const PADDING: Bytes := [0, 0, 0, 0, 0, 0]

  /** The 24-byte nonce: owner, page, epoch and hardware key, and six zero bytes. */
  function Nonce(owner: nat, page: nat, epoch: nat, keyid: nat): (n: Bytes)
    ensures |n| == 24
  {
    LittleEndian(owner, 4) + LittleEndian(page, 4) + LittleEndian(epoch, 8) + LittleEndian(keyid, 2) + PADDING
  }

  /** The 20 bytes a page is bound to: its address, the epoch and the owner. */
  function PageAad(owner: nat, base: nat, page: nat, epoch: nat): (a: Bytes)
    ensures |a| == 20
  {
    LittleEndian(base + page * PAGE_SIZE, 8) + LittleEndian(epoch, 8) + LittleEndian(owner, 4)
  }

  /** No nonce is used for two pages, epochs, owners or hardware keys. */
  lemma NonceInjective(owner: nat, page: nat, epoch: nat, keyid: nat, owner': nat, page': nat, epoch': nat, keyid': nat)
    requires owner < U32_SIZE && page < U32_SIZE && epoch < U64_SIZE && keyid < U16_SIZE
    requires owner' < U32_SIZE && page' < U32_SIZE && epoch' < U64_SIZE && keyid' < U16_SIZE
    requires Nonce(owner, page, epoch, keyid) == Nonce(owner', page', epoch', keyid')
    ensures owner == owner' && page == page' && epoch == epoch' && keyid == keyid'
  {
    hide Nonce, LittleEndian, Power256;
    NonceFields(owner, page, epoch, keyid);
    NonceFields(owner', page', epoch', keyid');
    Widths();
    LittleEndianInjective(owner, owner', 4);
    LittleEndianInjective(page, page', 4);
    LittleEndianInjective(epoch, epoch', 8);
    LittleEndianInjective(keyid, keyid', 2);
  }

  lemma NonceFields(owner: nat, page: nat, epoch: nat, keyid: nat)
    ensures var n := Nonce(owner, page, epoch, keyid);
            && n[0..4] == LittleEndian(owner, 4) && n[4..8] == LittleEndian(page, 4)
            && n[8..16] == LittleEndian(epoch, 8) && n[16..18] == LittleEndian(keyid, 2)
  {
    hide LittleEndian;
  }

  lemma PageAadInjective(owner: nat, base: nat, page: nat, epoch: nat, owner': nat, page': nat, epoch': nat)
    requires owner < U32_SIZE && owner' < U32_SIZE && epoch < U64_SIZE && epoch' < U64_SIZE
    requires base + page * PAGE_SIZE < U64_SIZE && base + page' * PAGE_SIZE < U64_SIZE
    requires PageAad(owner, base, page, epoch) == PageAad(owner', base, page', epoch')
    ensures owner == owner' && page == page' && epoch == epoch'
  {
    var a, b := PageAad(owner, base, page, epoch), PageAad(owner', base, page', epoch');
    assert a[0..8] == LittleEndian(base + page * PAGE_SIZE, 8) && b[0..8] == LittleEndian(base + page' * PAGE_SIZE, 8);
    assert a[8..16] == LittleEndian(epoch, 8) && b[8..16] == LittleEndian(epoch', 8);
    assert a[16..20] == LittleEndian(owner, 4) && b[16..20] == LittleEndian(owner', 4);
    Widths();
    hide LittleEndian, Power256;
    LittleEndianInjective(base + page * PAGE_SIZE, base + page' * PAGE_SIZE, 8);
    LittleEndianInjective(epoch, epoch', 8);
    LittleEndianInjective(owner, owner', 4);
  }

  // ----- an arena, as a value ------------------------------------------------------------

  datatype Keys = Keys(current: Key, previous: Option<Key>, epoch: nat, stalePages: nat)

  /** What of an arena never changes. */
  datatype Place = Place(owner: nat, keyid: nat, base: nat, pageCount: nat) {
    predicate Valid() {
      owner < U32_SIZE && keyid < U16_SIZE && pageCount < U32_SIZE && base + pageCount * PAGE_SIZE < U64_SIZE
    }

    function NonceOf(page: nat, epoch: nat): Bytes { Nonce(owner, page, epoch, keyid) }

    function AadOf(page: nat, epoch: nat): Bytes { PageAad(owner, base, page, epoch) }
  }

  function Rotated(k: Keys, freshKey: Key, resident: nat): Keys {
    Keys(freshKey, Some(k.current), k.epoch + 1, resident)
  }

  function SealedWith(p: Place, k: Keys, page: nat, contents: Page): (Page, Tag) {
    var nonce, aad := p.NonceOf(page, k.epoch), p.AadOf(page, k.epoch);
    (Sealed(k.current, nonce, aad, contents), Tag(k.current, nonce, aad, contents))
  }

  /** The key for a page of epoch `sealedEpoch`, if it is still there. */
  function KeyFor(k: Keys, sealedEpoch: nat): Option<Key> {
    if sealedEpoch == k.epoch then Some(k.current)
    else if sealedEpoch + 1 == k.epoch then k.previous
    else None
  }

  function Opened(p: Place, k: Keys, page: nat, contents: Page, tag: Tag, sealedEpoch: nat): Option<Page> {
    match KeyFor(k, sealedEpoch)
    case None => None
    case Some(key) => Decrypt(key, p.NonceOf(page, sealedEpoch), p.AadOf(page, sealedEpoch), contents, tag)
  }

  class PageFrame {
    var contents: Page

    constructor (contents: Page)
      ensures this.contents == contents
    {
      this.contents := contents;
    }
  }

  class Arena {
    const place: Place
    var current: Key
    var previous: Option<Key>
    var epoch: nat
    var stalePages: nat

    constructor (place: Place, firstKey: Key)
      ensures this.place == place && KeysOf() == Keys(firstKey, None, 0, 0)
    {
      this.place := place;
      current, previous, epoch, stalePages := firstKey, None, 0, 0;
    }

    function KeysOf(): Keys
      reads this
    {
      Keys(current, previous, epoch, stalePages)
    }

    /** `rotate`: the key before the last one is dropped, the current one kept for reading. */
    method Rotate(freshKey: Key, resident: nat)
      modifies this
      ensures KeysOf() == Rotated(old(KeysOf()), freshKey, resident)
    {
      previous := None;
      previous := Some(current);
      current := freshKey;
      epoch := epoch + 1;
      stalePages := resident;
    }

    method SealPage(page: nat, frame: PageFrame) returns (r: Result<Tag, VaultError>)
      modifies frame
      ensures page >= place.pageCount ==> r == Err(NotOwner) && frame.contents == old(frame.contents)
      ensures page < place.pageCount ==>
                var (sealed, tag) := SealedWith(place, KeysOf(), page, old(frame.contents));
                r == Ok(tag) && frame.contents == sealed
    {
      if page >= place.pageCount { return Err(NotOwner); }
      var nonce := place.NonceOf(page, epoch);
      var aad := place.AadOf(page, epoch);
      var plain := frame.contents;
      frame.contents := Sealed(current, nonce, aad, plain);
      r := Ok(Tag(current, nonce, aad, plain));
    }

    /** `open_page`; a page that does not verify is left as it is. */
    method OpenPage(page: nat, frame: PageFrame, tag: Tag, sealedEpoch: nat) returns (r: Result<(), VaultError>)
      requires sealedEpoch == epoch || sealedEpoch + 1 < U64_SIZE
      requires KeyFor(KeysOf(), sealedEpoch).Some? ==> place.base + page * PAGE_SIZE < U64_SIZE
      modifies frame
      ensures match Opened(place, KeysOf(), page, old(frame.contents), tag, sealedEpoch)
              case None => r == Err(IntegrityFailure) && frame.contents == old(frame.contents)
              case Some(plain) => r == Ok(()) && frame.contents == plain
    {
      var key: Key;
      if sealedEpoch == epoch {
        key := current;
      } else if sealedEpoch + 1 == epoch {
        if previous.None? { return Err(IntegrityFailure); }
        key := previous.value;
      } else {
        return Err(IntegrityFailure);
      }
      var nonce := place.NonceOf(page, sealedEpoch);
      var aad := place.AadOf(page, sealedEpoch);
      var plain := Decrypt(key, nonce, aad, frame.contents, tag);
      if plain.None? { return Err(IntegrityFailure); }
      frame.contents := plain.value;
      r := Ok(());
    }

    /** `sweep_step`: at most 512 pages a step, and none while sweeps are deferred. */
    method SweepStep(budget: nat, deferred: bool) returns (done: nat)
      modifies this
      ensures done == Swept(old(KeysOf()), budget, deferred)
      ensures KeysOf() == old(KeysOf()).(stalePages := old(stalePages) - done)
    {
      if deferred { return 0; }
      var chunk := Arith.Min(budget, MAX_CHUNK);
      var remaining := stalePages;
      done := Arith.Min(chunk, remaining);
      stalePages := stalePages - done;
    }
  }

  /** How many pages one step sweeps. */
  function Swept(k: Keys, budget: nat, deferred: bool): (n: nat)
    ensures n <= k.stalePages && n <= MAX_CHUNK
  {
    if deferred then 0 else Arith.Min(Arith.Min(budget, MAX_CHUNK), k.stalePages)
  }
}
