/** One NOR flash page of the EFTL volume, its 12-byte tag, and the flash device with an
    oracle that decides at which call the power goes. */
module NorFlash {
  import opened Bytes

  const PAGE_SIZE: nat := 512
  const TAG_SIZE: nat := 12
  const DATA_SIZE: nat := 500
  const TAG_OFFSET: nat := 500

  type Page = p: Bytes | |p| == PAGE_SIZE witness Blank(PAGE_SIZE)

  const Erased: Page := Blank(PAGE_SIZE)

  /** NOR programming can only clear bits. */
  function Programmed(p: Page, off: nat, data: Bytes): (r: Page)
    requires off + |data| <= PAGE_SIZE
    ensures forall i :: 0 <= i < PAGE_SIZE ==>
            r[i] == if off <= i < off + |data| then And(p[i], data[i - off]) else p[i]
  {
    seq(PAGE_SIZE, i requires 0 <= i < PAGE_SIZE => if off <= i < off + |data| then And(p[i], data[i - off]) else p[i])
  }

  /** `t` is what a program call cut short may leave: outside the range nothing changed, inside
      it some of the bits the call was going to clear are cleared, and no others. */
  predicate Torn(p: Page, off: nat, data: Bytes, t: Page)
    requires off + |data| <= PAGE_SIZE
  {
    forall i :: 0 <= i < PAGE_SIZE ==>
      if off <= i < off + |data|
      then And(t[i], p[i]) == t[i] && And(And(p[i], data[i - off]), t[i]) == And(p[i], data[i - off])
      else t[i] == p[i]
  }

  /** `memcmp(tag->head, "ftl", 3) == 0` */
  predicate HasHead(p: Page) {
    p[TAG_OFFSET] == 0x66 && p[TAG_OFFSET + 1] == 0x74 && p[TAG_OFFSET + 2] == 0x6C
  }

  function Ver(p: Page): nat {
    FromLe32(p[TAG_OFFSET + 4..TAG_OFFSET + 8])
  }

  function LogicPage(p: Page): nat {
    FromLe32(p[TAG_OFFSET + 8..])
  }

  predicate Tagged(p: Page, lp: nat) {
    HasHead(p) && LogicPage(p) == lp
  }

  function Data(p: Page): Bytes {
    p[..DATA_SIZE]
  }

  predicate BlankTag(p: Page) {
    p[TAG_OFFSET..] == Blank(TAG_SIZE)
  }

  /** `struct eftl_page_tag` with `is_used` = 1. */
  function TagBytes(lp: nat, ver: nat): (r: Bytes)
    requires lp < U32 && ver < U32
    ensures |r| == TAG_SIZE
  {
    [0x66, 0x74, 0x6C, 0x01] + Le32(ver) + Le32(lp)
  }

  /** A page image as it is once the tag has been programmed: "ftl" and 1 behind the 500 bytes of data, then the
      version and the logical page. */
  function Stamped(buf: Page, lp: nat, ver: nat): (r: Page)
    requires lp < U32 && ver < U32
    ensures Tagged(r, lp) && Ver(r) == ver && Data(r) == Data(buf)
    ensures r == buf[..500] + [0x66, 0x74, 0x6C, 0x01] + Le32(ver) + Le32(lp)
  {
    var r := buf[..TAG_OFFSET] + TagBytes(lp, ver);
    Le32RoundTrip(ver);
    Le32RoundTrip(lp);
    assert r[TAG_OFFSET + 4..TAG_OFFSET + 8] == Le32(ver);
    assert r[TAG_OFFSET + 8..] == Le32(lp);
    r
  }

  lemma ErasedIsBlank()
    ensures BlankTag(Erased) && !HasHead(Erased)
  {
    assert Erased[TAG_OFFSET] == 0xFF;
  }

  lemma BlankTagUntagged(p: Page)
    requires BlankTag(p)
    ensures !HasHead(p)
  {
    assert p[TAG_OFFSET] == p[TAG_OFFSET..][0] == 0xFF;
  }

  /** A whole-page program of an erased page stores the buffer. */
  lemma ProgramErased(buf: Page)
    ensures Programmed(Erased, 0, buf) == buf
  {
    forall i | 0 <= i < PAGE_SIZE ensures Programmed(Erased, 0, buf)[i] == buf[i] {
      AndErased(buf[i]);
    }
  }

  lemma ProgramOverBlankTag(p: Page, tag: Bytes)
    requires BlankTag(p) && |tag| == TAG_SIZE
    ensures Programmed(p, TAG_OFFSET, tag) == p[..TAG_OFFSET] + tag
  {
    forall i | TAG_OFFSET <= i < PAGE_SIZE ensures Programmed(p, TAG_OFFSET, tag)[i] == tag[i - TAG_OFFSET] {
      assert p[i] == p[TAG_OFFSET..][i - TAG_OFFSET] == 0xFF;
      AndErased(tag[i - TAG_OFFSET]);
    }
  }

  /** Programming the tag over a blank tag stores the tag and leaves the data alone. */
  lemma ProgramTag(p: Page, lp: nat, ver: nat)
    requires BlankTag(p) && lp < U32 && ver < U32
    ensures Programmed(p, TAG_OFFSET, TagBytes(lp, ver)) == Stamped(p, lp, ver)
  {
    ProgramOverBlankTag(p, TagBytes(lp, ver));
  }

  /** A data program cut short never produces a tag. */
  lemma TornKeepsTagBlank(buf: Page, t: Page)
    requires BlankTag(buf) && Torn(Erased, 0, buf, t)
    ensures BlankTag(t)
  {
    forall i | TAG_OFFSET <= i < PAGE_SIZE ensures t[i] == 0xFF {
      assert buf[i] == buf[TAG_OFFSET..][i - TAG_OFFSET] == 0xFF;
      AndErased(0xFF);
      AndErased(t[i]);
    }
  }

  /** Tag programs have to be atomic. A tag program cut short after its first word leaves a page
      whose head matches and whose logical page number is 0xFFFFFFFF. */
  lemma TornTagIsHarmful(p: Page, lp: nat, ver: nat) returns (t: Page)
    requires BlankTag(p) && lp < U32 && ver < U32
    ensures Torn(p, TAG_OFFSET, TagBytes(lp, ver), t) && HasHead(t) && LogicPage(t) == U32 - 1
  {
    var tag := TagBytes(lp, ver);
    t := p[..TAG_OFFSET] + tag[..4] + Blank(8);
    forall i | 0 <= i < PAGE_SIZE
      ensures if TAG_OFFSET <= i < TAG_OFFSET + TAG_SIZE
              then
                And(t[i], p[i]) == t[i] && And(And(p[i], tag[i - TAG_OFFSET]), t[i]) == And(p[i], tag[i - TAG_OFFSET])
              else t[i] == p[i]
    {
      if i >= TAG_OFFSET {
        assert p[i] == p[TAG_OFFSET..][i - TAG_OFFSET] == 0xFF;
        AndErased(t[i]);
        AndErased(tag[i - TAG_OFFSET]);
        AndSelf(tag[i - TAG_OFFSET]);
      }
    }
  }

  lemma AndSelf(x: byte)
    ensures And(x, x) == x
  {
  }

  /** What becomes of one flash call: it succeeds, or the power goes during it. `applied` says
      whether the effect had already taken place, `image` is the candidate torn page. */
  datatype Outcome = Success | PowerLost(applied: bool, image: Page)

  /** What becomes of the next call, and what the oracle holds for the calls behind it. */
  function Next(plan: seq<Outcome>): Outcome {
    if plan == [] then Success else plan[0]
  }

  function Rest(plan: seq<Outcome>): seq<Outcome> {
    if plan == [] then [] else plan[1..]
  }

  /** How often the power is still going to go. */
  function Losses(plan: seq<Outcome>): nat {
    if plan == [] then 0 else (if plan[0].Success? then 0 else 1) + Losses(plan[1..])
  }

  /** The power goes in front of the third call from here. */
  predicate LostAtThird(plan: seq<Outcome>) {
    var o := Next(Rest(Rest(plan)));
    Next(plan).Success? && Next(Rest(plan)).Success? && o.PowerLost? && !o.applied
  }

  /** 1 for a call that failed. */
  function Lost(ok: bool): nat {
    if ok then 0 else 1
  }

  class FlashDevice {
    var pages: seq<Page>
    /** Outcomes of the calls to come; once it is used up every call succeeds. */
    var plan: seq<Outcome>

    constructor (pages: seq<Page>, plan: seq<Outcome>)
      ensures this.pages == pages && this.plan == plan
    {
      this.pages := pages;
      this.plan := plan;
    }

    method NextOutcome() returns (o: Outcome)
      modifies this`plan
      ensures o == Next(old(plan)) && plan == Rest(old(plan))
    {
      if plan == [] {
        o := Success;
      } else {
        o := plan[0];
        plan := plan[1..];
      }
    }

    /** `flash_program`. A program of at most a tag is atomic; a longer one may be torn. */
    method Program(q: nat, off: nat, data: Bytes) returns (ok: bool)
      requires q < |pages| && off + |data| <= PAGE_SIZE
      modifies this
      ensures ok == Next(old(plan)).Success? && plan == Rest(old(plan))
      ensures Losses(plan) + Lost(ok) == Losses(old(plan))
      ensures |pages| == |old(pages)| && pages == old(pages)[q := pages[q]]
      ensures ok ==> pages[q] == Programmed(old(pages[q]), off, data)
      ensures !ok && |data| <= TAG_SIZE ==>
              pages[q] == old(pages[q]) || pages[q] == Programmed(old(pages[q]), off, data)
      ensures !ok && |data| > TAG_SIZE ==> pages[q] == old(pages[q]) || Torn(old(pages[q]), off, data, pages[q])
    {
      var o := NextOutcome();
      ok := o.Success?;
      if ok || (o.applied && |data| <= TAG_SIZE) {
        pages := pages[q := Programmed(pages[q], off, data)];
      } else if |data| > TAG_SIZE && Torn(pages[q], off, data, o.image) {
        pages := pages[q := o.image];
      }
    }

    /** `flash_erase` of one page, atomic. */
    method Erase(q: nat) returns (ok: bool)
      requires q < |pages|
      modifies this
      ensures ok == Next(old(plan)).Success? && plan == Rest(old(plan))
      ensures Losses(plan) + Lost(ok) == Losses(old(plan))
      ensures |pages| == |old(pages)| && pages == old(pages)[q := pages[q]]
      ensures ok ==> pages[q] == Erased
      ensures !ok ==> pages[q] == if Next(old(plan)).applied then Erased else old(pages[q])
    {
      var o := NextOutcome();
      ok := o.Success?;
      if ok || o.applied {
        pages := pages[q := Erased];
      }
    }
  }
}
