/** The interpolation search over ids, with its 64-bit product that may wrap around. */
module InterpolationSearch {
  import opened Words
  import opened Sequences
  import opened Messages

  ghost predicate NonDecreasing(s: seq<Element>) {
    forall i, j :: 0 <= i <= j < |s| ==> s[i].id <= s[j].id
  }

  ghost predicate Present(s: seq<Element>, id: Word64) {
    exists i :: 0 <= i < |s| && s[i].id == id
  }

  // low + ((high - low) * (id - lowId)) / (highId - lowId), the product taken modulo 2^64.
  function Probe(low: nat, high: nat, lowId: Word64, highId: Word64, id: Word64): (pos: nat)
    requires low <= high && lowId <= id <= highId && lowId < highId
    ensures low <= pos <= high
  {
    ProbeInRange(high - low, id - lowId, highId - lowId);
    low + ((high - low) * (id - lowId)) % TWO_64 / (highId - lowId)
  }

  // Wrapping only ever makes the product smaller, so the offset never passes the span.
  lemma ProbeInRange(span: nat, offset: nat, width: int)
    requires offset <= width && width > 0
    ensures 0 <= (span * offset) % TWO_64 / width <= span
  {
    var product := span * offset;
    var wrapped := product % TWO_64;
    assert 0 <= wrapped <= product;
    assert product <= span * width;
    var q := wrapped / width;
    assert q * width <= wrapped;
    assert (q - span) * width <= 0;
  }

  // Ids at equal distances, as a counter draws them.
  ghost predicate EvenlySpaced(s: seq<Element>, step: nat) {
    step > 0 && forall i :: 0 <= i < |s| ==> s[i].id == s[0].id + i * step
  }

  // While the product does not wrap, a probe for an id that lies as far along the ids as `j` lies along the indices
  // is exact.
  lemma ProbeHits(low: nat, high: nat, lowId: Word64, highId: Word64, id: Word64, j: nat)
    requires low <= high && lowId <= id <= highId && lowId < highId
    requires (high - low) * (id - lowId) == j * (highId - lowId)
    requires (high - low) * (id - lowId) < 0x1_0000_0000_0000_0000
    ensures Probe(low, high, lowId, highId, id) == low + j
  {
    var product := (high - low) * (id - lowId);
    assert product >= 0 && product % TWO_64 == product;
    Quotient(product, j, highId - lowId);
  }

  // So is the first probe on evenly spaced ids.
  lemma FirstProbeHits(s: seq<Element>, step: nat, id: Word64, j: nat)
    requires EvenlySpaced(s, step) && j < |s| && |s| > 1 && s[j].id == id
    requires (|s| - 1) * (id - s[0].id) < 0x1_0000_0000_0000_0000
    ensures s[0].id <= id <= s[|s| - 1].id && s[0].id < s[|s| - 1].id
    ensures Probe(0, |s| - 1, s[0].id, s[|s| - 1].id, id) == j
  {
    var n := |s| - 1;
    assert id - s[0].id == j * step && s[n].id - s[0].id == n * step;
    AtLeast(n, step);
    Ordered(j, n, step);
    Exchange(n, j, step);
    ProbeHits(0, n, s[0].id, s[n].id, id, j);
  }

  lemma Ordered(j: nat, n: nat, step: nat)
    requires j <= n
    ensures 0 <= j * step <= n * step
  {
    assert (n - j) * step >= 0;
  }

  lemma Exchange(n: nat, j: nat, step: nat)
    ensures n * (j * step) == j * (n * step)
  {
  }

  lemma Quotient(x: int, j: nat, width: int)
    requires width > 0 && x == j * width
    ensures x / width == j
  {
    var q, r := x / width, x % width;
    assert (j - q) * width == r;
    if q < j {
      AtLeast(j - q, width);
    } else if q > j {
      AtLeast(q - j, width);
    }
  }

  lemma AtLeast(k: int, width: int)
    requires k >= 1 && width > 0
    ensures k * width >= width
  {
  }

  // When it wraps, what is lost are multiples of 2^64: here 4 * 2^62 reads as 0, and the probe falls on `low`.
  lemma ProbeWraps(low: nat)
    ensures Probe(low, low + 4, 0, 0x8000_0000_0000_0000, 0x4000_0000_0000_0000) == low
  {
  }

  // Both C copies of the search (over messages and over values) run this loop on the elements' ids.
  // No index is probed twice, and on evenly spaced ids one probe finds what is there.
  method InterpolateSearch(data: array<Element>, size: nat, id: Word64) returns (index: int, ghost probed: seq<nat>)
    requires size <= data.Length
    ensures -1 <= index < size
    ensures index != -1 ==> data[index].id == id
    ensures NonDecreasing(data[..size]) && Present(data[..size], id) ==> index != -1
    ensures Direct(data[..size], id) ==> index != -1 && |probed| <= 1
    ensures Distinct(probed) && forall i :: 0 <= i < |probed| ==> probed[i] < size
  {
    probed := [];
    if size == 0 {
      return -1, [];
    }
    ghost var s := data[..size];
    ghost var direct := Direct(s, id);
    var low, high := 0, size - 1;
    while low <= high
      invariant 0 <= low <= high < size
      invariant NonDecreasing(s) ==> forall i :: 0 <= i < low ==> s[i].id < id
      invariant NonDecreasing(s) ==> forall i :: high < i < size ==> id < s[i].id
      invariant direct ==> low == 0 && high == size - 1 && probed == []
      invariant Distinct(probed)
      invariant forall i :: 0 <= i < |probed| ==> probed[i] < low || high < probed[i] < size
      decreases high - low
    {
      var lowId, highId := data[low].id, data[high].id;
      if direct {
        FirstProbe(s, id);
      }
      if id < lowId || id > highId {
        break;
      }
      if lowId == highId {
        if lowId == id {
          return low, probed;
        }
        break;
      }
      var pos := Probe(low, high, lowId, highId, id);
      probed := probed + [pos];
      if data[pos].id == id {
        return pos, probed;
      }
      if data[pos].id < id {
        low := pos + 1;
      } else {
        high := pos - 1;
      }
    }
    return -1, probed;
  }

  // An id that is there, among evenly spaced ones, and near enough for the product not to wrap.
  ghost predicate Direct(s: seq<Element>, id: Word64) {
    exists step :: EvenlySpaced(s, step) && Present(s, id) && (|s| - 1) * (id - s[0].id) < 0x1_0000_0000_0000_0000
  }

  lemma FirstProbe(s: seq<Element>, id: Word64)
    requires Direct(s, id)
    ensures var n := |s| - 1;
      && n >= 0 && s[0].id <= id <= s[n].id && (s[0].id == s[n].id ==> s[0].id == id)
      && (s[0].id < s[n].id ==> s[Probe(0, n, s[0].id, s[n].id, id)].id == id)
  {
    var step :| EvenlySpaced(s, step) && Present(s, id) && (|s| - 1) * (id - s[0].id) < 0x1_0000_0000_0000_0000;
    var j :| 0 <= j < |s| && s[j].id == id;
    if |s| > 1 {
      FirstProbeHits(s, step, id, j);
    }
  }
}
