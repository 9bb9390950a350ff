/**
 Virtual addresses as the kernel takes them apart: four 9-bit table indices and a
 12-bit page offset.  A shift right by n divides by 2^n; `& 511` is the remainder by 512.
 */
module Address {
  import opened PageModel

  /** The four 9-bit indices of an address; a shift right by n divides by 2^n. */
  function PageOf(v: nat): VPage {
    VPage((v / 0x80_0000_0000) % 512, (v / 0x4000_0000) % 512, (v / 0x20_0000) % 512, (v / 0x1000) % 512)
  }

  function OffsetOf(v: nat): nat {
    v % 0x1000
  }

  /** The address put together again. */
  function AddressOf(p: VPage, offset: nat): nat {
    p.i4 * 0x80_0000_0000 + p.i3 * 0x4000_0000 + p.i2 * 0x20_0000 + p.i1 * 0x1000 + offset
  }

  /** A larger quotient outweighs any remainder. */
  lemma QuotientGap(d: nat, q: nat, q': nat)
    requires q < q'
    ensures q * d + d <= q' * d
  {
    var gap := q' - q - 1;
    assert q' == q + 1 + gap;
    assert q' * d == q * d + d + gap * d;
  }

  lemma QuotientIsUnique(d: nat, q: nat, r: nat, q': nat, r': nat)
    requires r < d && r' < d && q * d + r == q' * d + r'
    ensures q == q' && r == r'
  {
    if q < q' {
      QuotientGap(d, q, q');
    } else if q' < q {
      QuotientGap(d, q', q);
    }
  }

  lemma QuotientIs(v: nat, d: nat, q: nat, r: nat)
    requires 0 < d && r < d && v == q * d + r
    ensures v / d == q && v % d == r
  {
    var q', r' := v / d, v % d;
    QuotientIsUnique(d, q, r, q', r');
  }

  /** Indices and offset determine a 48-bit address ... */
  lemma AddressOfParts(v: nat)
    requires v < 0x1_0000_0000_0000
    ensures AddressOf(PageOf(v), OffsetOf(v)) == v
  {
    var n0 := v / 0x1000;
    var n1 := n0 / 512;
    var n2 := n1 / 512;
    var n3 := n2 / 512;
    QuotientIs(v, 0x20_0000, n1, (n0 % 512) * 0x1000 + v % 0x1000);
    QuotientIs(v, 0x4000_0000, n2, (n1 % 512) * 0x20_0000 + (n0 % 512) * 0x1000 + v % 0x1000);
    QuotientIs(v, 0x80_0000_0000, n3,
               (n2 % 512) * 0x4000_0000 + (n1 % 512) * 0x20_0000 + (n0 % 512) * 0x1000 + v % 0x1000);
    assert n3 < 512;
  }

  /** ... and every choice of them belongs to one. */
  lemma PartsOfAddress(p: VPage, offset: nat)
    requires offset < 0x1000
    ensures PageOf(AddressOf(p, offset)) == p && OffsetOf(AddressOf(p, offset)) == offset
  {
    var v := AddressOf(p, offset);
    QuotientIs(v, 0x1000, (p.i4 * 512 + p.i3) * 0x4_0000 + p.i2 * 512 + p.i1, offset);
    QuotientIs(v, 0x20_0000, (p.i4 * 512 + p.i3) * 512 + p.i2, p.i1 * 0x1000 + offset);
    QuotientIs(v, 0x4000_0000, p.i4 * 512 + p.i3, p.i2 * 0x20_0000 + p.i1 * 0x1000 + offset);
    QuotientIs(v, 0x80_0000_0000, p.i4, p.i3 * 0x4000_0000 + p.i2 * 0x20_0000 + p.i1 * 0x1000 + offset);
    QuotientIs((p.i4 * 512 + p.i3) * 0x4_0000 + p.i2 * 512 + p.i1, 512, (p.i4 * 512 + p.i3) * 512 + p.i2, p.i1);
    QuotientIs((p.i4 * 512 + p.i3) * 512 + p.i2, 512, p.i4 * 512 + p.i3, p.i2);
    QuotientIs(p.i4 * 512 + p.i3, 512, p.i4, p.i3);
    QuotientIs(p.i4, 512, 0, p.i4);
  }

  /** Addresses below the kernel's last 512 GiB of the 48-bit space are user addresses. */
  lemma LowAddressIsUser(v: nat)
    requires v < 0xFF80_0000_0000
    ensures UserPage(PageOf(v))
  {
  }

  /** The indices of an address are digits of its page number. */
  lemma IndicesOfPage(n: nat, offset: nat)
    requires offset < 0x1000
    ensures PageOf(n * 0x1000 + offset) == VPage(n / 0x800_0000 % 512, n / 0x4_0000 % 512, n / 512 % 512, n % 512)
  {
    var v := n * 0x1000 + offset;
    QuotientIs(v, 0x1000, n, offset);
    QuotientIs(v, 0x20_0000, n / 512, n % 512 * 0x1000 + offset);
    QuotientIs(v, 0x4000_0000, n / 0x4_0000, n % 0x4_0000 * 0x1000 + offset);
    QuotientIs(v, 0x80_0000_0000, n / 0x800_0000, n % 0x800_0000 * 0x1000 + offset);
  }

  lemma SamePage(base: nat, a: nat)
    requires base % 0x1000 == 0 && base <= a < base + 0x1000
    ensures PageOf(a) == PageOf(base)
  {
    var n := base / 0x1000;
    assert base == n * 0x1000 + 0 && a == n * 0x1000 + (a - base);
    hide PageOf;
    IndicesOfPage(n, 0);
    IndicesOfPage(n, a - base);
  }

  /** `no_of_bytes / pageSize + 1`; C's division drops the fraction of a negative quotient. */
  function PagesFor(bytes: int): int {
    (if bytes >= 0 then bytes / 0x1000 else -((-bytes) / 0x1000)) + 1
  }

  /** The pages sbrk maps: just more than the bytes, and one for a small negative count. */
  lemma PagesForMeans(bytes: int)
    ensures bytes >= 0 ==> bytes < PagesFor(bytes) * 4096 <= bytes + 4096
    ensures bytes < 0 ==> bytes <= (PagesFor(bytes) - 1) * 4096 < bytes + 4096
  {
  }
}
