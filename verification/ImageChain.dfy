/** What a guest sees through a chain of images, and when changing the chain
    leaves it as it was (qemu-kvm/block.c). */
module ImageChain {

  type Value = int
  const ZERO: Value := 0

  /** An image: its length in sectors and the sectors allocated in it. */
  datatype Image = Image(total: nat, data: map<nat, Value>)

  /** The contents of a sector, read from the top of a chain: from the first image
      that holds it; past the end of an image there are zeroes. */
  function Visible(chain: seq<Image>, s: nat): Value {
    if chain == [] || s >= chain[0].total then ZERO
    else if s in chain[0].data then chain[0].data[s]
    else Visible(chain[1..], s)
  }

  /** A read of sector s gets past the first i images. */
  predicate Reaches(chain: seq<Image>, i: nat, s: nat)
    requires i <= |chain|
  {
    forall k | 0 <= k < i :: s < chain[k].total && s !in chain[k].data
  }

  lemma {:induction false} VisibleBelow(chain: seq<Image>, i: nat, s: nat)
    requires i <= |chain| && Reaches(chain, i, s)
    ensures Visible(chain, s) == Visible(chain[i..], s)
  {
    if i > 0 {
      assert forall k | 0 <= k < i - 1 :: chain[1..][k] == chain[k + 1];
      VisibleBelow(chain[1..], i - 1, s);
      assert chain[1..][i - 1..] == chain[i..];
    }
  }

  /** What is below an image that stops the read does not matter. */
  lemma {:induction false} VisibleAbove(a: seq<Image>, b: seq<Image>, i: nat, s: nat)
    requires i <= |a| && i <= |b| && a[..i] == b[..i] && !Reaches(a, i, s)
    ensures Visible(a, s) == Visible(b, s)
  {
    if i > 0 {
      assert a[0] == a[..i][0] == b[..i][0] == b[0];
      if s < a[0].total && s !in a[0].data {
        assert a[1..][..i - 1] == a[..i][1..] == b[..i][1..] == b[1..][..i - 1];
        assert exists k :: 0 <= k < i - 1 && (s >= a[1..][k].total || s in a[1..][k].data) by {
          var k :| 0 <= k < i && (s >= a[k].total || s in a[k].data);
          assert a[1..][k - 1] == a[k];
        }
        VisibleAbove(a[1..], b[1..], i - 1, s);
      }
    }
  }

  // ---------------------------------------------------------- dropping images

  function Dropped(chain: seq<Image>, i: nat, j: nat): seq<Image>
    requires i <= j <= |chain|
  {
    chain[..i] + chain[j..]
  }

  /** No sector is allocated in the images from i up to, not including, j. */
  ghost predicate NoneAllocated(chain: seq<Image>, i: nat, j: nat)
    requires i <= j <= |chain|
  {
    forall k, s: nat | i <= k < j :: s !in chain[k].data
  }

  /** Some image from i up to j ends at or before sector s. */
  ghost predicate CutOff(chain: seq<Image>, i: nat, j: nat, s: nat)
    requires i <= j <= |chain|
  {
    exists k :: i <= k < j && s >= chain[k].total
  }

  lemma {:induction false} VisibleThrough(chain: seq<Image>, i: nat, j: nat, s: nat)
    requires i <= j <= |chain| && NoneAllocated(chain, i, j)
    ensures Visible(chain[i..], s) == if CutOff(chain, i, j, s) then ZERO else Visible(chain[j..], s)
    decreases j - i
  {
    if i < j {
      assert chain[i..][0] == chain[i] && chain[i..][1..] == chain[i + 1..];
      assert s !in chain[i].data;
      if s < chain[i].total {
        VisibleThrough(chain, i + 1, j, s);
      }
    }
  }

  /** One sector, seen before and after images with nothing in them are dropped. */
  lemma DropSector(chain: seq<Image>, i: nat, j: nat, s: nat)
    requires i <= j <= |chain| && NoneAllocated(chain, i, j)
    ensures Visible(Dropped(chain, i, j), s) ==
            if Reaches(chain, i, s) && CutOff(chain, i, j, s) then Visible(chain[j..], s) else Visible(chain, s)
    ensures Reaches(chain, i, s) && CutOff(chain, i, j, s) ==> Visible(chain, s) == ZERO
  {
    hide Visible, CutOff;
    var after := Dropped(chain, i, j);
    assert after[..i] == chain[..i] && after[i..] == chain[j..];
    assert forall k | 0 <= k < i :: after[k] == chain[k];
    if Reaches(chain, i, s) {
      VisibleBelow(chain, i, s);
      VisibleBelow(after, i, s);
      VisibleThrough(chain, i, j, s);
    } else {
      VisibleAbove(chain, after, i, s);
    }
  }

  /** The guest sees the same disk. */
  ghost predicate SameDisk(a: seq<Image>, b: seq<Image>) {
    forall s: nat :: Visible(a, s) == Visible(b, s)
  }

  /** Every sector that an image from i up to j cuts off, and no image above i
      stops, reads as zeroes from j on. */
  ghost predicate NothingUncovered(chain: seq<Image>, i: nat, j: nat)
    requires i <= j <= |chain|
  {
    forall s: nat | Reaches(chain, i, s) && CutOff(chain, i, j, s) :: Visible(chain[j..], s) == ZERO
  }

  /** Dropping images in which no sector is allocated keeps the visible disk
      exactly when that uncovers nothing below them. */
  lemma DropExact(chain: seq<Image>, i: nat, j: nat)
    requires i <= j <= |chain| && NoneAllocated(chain, i, j)
    ensures SameDisk(Dropped(chain, i, j), chain) <==> NothingUncovered(chain, i, j)
  {
    hide Visible, CutOff, Reaches, Dropped;
    var after := Dropped(chain, i, j);
    if SameDisk(after, chain) {
      forall s: nat | Reaches(chain, i, s) && CutOff(chain, i, j, s) ensures Visible(chain[j..], s) == ZERO {
        DropSector(chain, i, j, s);
      }
    }
    if NothingUncovered(chain, i, j) {
      forall s: nat ensures Visible(after, s) == Visible(chain, s) {
        DropSector(chain, i, j, s);
      }
    }
  }

  /** In particular when no dropped image is shorter than those below. */
  lemma LongEnough(chain: seq<Image>, i: nat, j: nat)
    requires i <= j <= |chain|
    requires forall k | i <= k < j :: j < |chain| ==> chain[k].total >= chain[j].total
    ensures NothingUncovered(chain, i, j)
  {
    forall s: nat | CutOff(chain, i, j, s) ensures Visible(chain[j..], s) == ZERO {
      if j < |chain| { assert chain[j..][0] == chain[j]; }
    }
  }

  /** An image with nothing allocated can still hide what is below it: a short
      one cuts off the sectors past its end. */
  lemma ShortImageHides()
    ensures var chain := [Image(2, map[]), Image(1, map[]), Image(2, map[1 := 7])];
      && NoneAllocated(chain, 1, 2) && Visible(chain, 1) == ZERO && Visible(Dropped(chain, 1, 2), 1) == 7
  {
    var chain := [Image(2, map[]), Image(1, map[]), Image(2, map[1 := 7])];
    var base := [Image(2, map[1 := 7])];
    assert chain[1..] == [Image(1, map[]), Image(2, map[1 := 7])];
    assert Dropped(chain, 1, 2) == [Image(2, map[]), Image(2, map[1 := 7])];
    assert Dropped(chain, 1, 2)[1..] == base;
    assert Visible(base, 1) == 7;
  }

  // ---------------------------------------------------------------- committing

  /** Sector s has been copied down: the image below the top shows what the top
      shows. */
  ghost predicate SameBelow(chain: seq<Image>, s: nat)
    requires |chain| >= 2
  {
    Visible(chain[1..], s) == Visible(chain, s)
  }

  ghost predicate SameAt(a: Image, b: Image, s: nat) {
    (s in a.data <==> s in b.data) && (s in a.data ==> a.data[s] == b.data[s])
  }

  /** The image holds, inside its length, what the chain shows there. */
  ghost predicate HoldsVisible(below: Image, chain: seq<Image>, s: nat) {
    s < below.total && s in below.data && below.data[s] == Visible(chain, s)
  }

  /** Writing into the second image what the chain shows, or where the top holds the
      sector, is invisible through the top. */
  lemma WriteBelow(chain: seq<Image>, below: Image, s: nat)
    requires |chain| >= 2 && below.total == chain[1].total
    requires s in chain[0].data || SameAt(below, chain[1], s) || HoldsVisible(below, chain, s)
    ensures Visible(chain[1 := below], s) == Visible(chain, s)
    ensures s < chain[0].total && s !in chain[0].data ==> Visible(chain[1 := below][1..], s) == Visible(chain[1..], s)
  {
    var after := chain[1 := below];
    assert after[0] == chain[0] && after[1..][0] == below && chain[1..][0] == chain[1];
    assert after[1..][1..] == chain[2..] == chain[1..][1..];
  }

  /** Once the image below shows the same, the top may drop the sector. */
  lemma EmptyTop(chain: seq<Image>, top: Image, s: nat)
    requires |chain| >= 2 && top.total == chain[0].total
    requires s < chain[0].total ==> SameBelow(chain, s)
    requires s in top.data ==> s in chain[0].data && top.data[s] == chain[0].data[s]
    ensures Visible(chain[0 := top], s) == Visible(chain, s)
    ensures chain[0 := top][1..] == chain[1..]
  {
    var after := chain[0 := top];
    assert after[1..] == chain[1..];
  }
}
