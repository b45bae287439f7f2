/**
 Physical memory: a flat array of words, of which only the first npages pages answer.
 */
module PhysicalMemory {
  import opened Words

  type Bank = s: seq<Word> | |s| == 0x40_0000 witness seq(0x40_0000, _ => 0)
  type Page = s: seq<Word> | |s| == 256 witness seq(256, _ => 0)

  function PageNumber(addr: Word): (pn: nat)
    ensures pn < 0x4000
  {
    addr / 256 % 0x4000
  }

  /** A word access answers when its page is populated and the address needs no more than 22 bits. */
  predicate Populated(npages: nat, addr: Word) { PageNumber(addr) < npages && addr < 0x40_0000 }

  function ReadPhysical(m: Bank, npages: nat, addr: Word): Word {
    if Populated(npages, addr) then m[addr] else 0xFFFF_FFFF
  }

  function WritePhysical(m: Bank, npages: nat, addr: Word, v: Word): Bank {
    if Populated(npages, addr) then m[addr := v] else m
  }

  /** Page transfers go by the masked page number alone. */
  function PageAt(m: Bank, pn: nat): Page
    requires pn < 0x4000
  {
    m[pn * 256..pn * 256 + 256]
  }

  function WithPage(m: Bank, pn: nat, p: Page): Bank
    requires pn < 0x4000
  {
    m[..pn * 256] + p + m[pn * 256 + 256..]
  }

  function ReadPage(m: Bank, npages: nat, addr: Word): Option<Page> {
    if PageNumber(addr) < npages then Some(PageAt(m, PageNumber(addr))) else None
  }

  function WritePage(m: Bank, npages: nat, addr: Word, p: Page): Option<Bank> {
    if PageNumber(addr) < npages then Some(WithPage(m, PageNumber(addr), p)) else None
  }

  /** Reading a page back after writing one: the same page returns what was written, any other is unchanged. */
  lemma PageAfterWrite(m: Bank, p: Page, pn: nat, qn: nat)
    requires pn < 0x4000 && qn < 0x4000
    ensures PageAt(WithPage(m, pn, p), qn) == if qn == pn then p else PageAt(m, qn)
  {
    var m' := WithPage(m, pn, p);
    if qn == pn {
      assert m'[pn * 256..pn * 256 + 256] == p;
    } else {
      forall i: nat | i < 256 ensures PageAt(m', qn)[i] == PageAt(m, qn)[i] {
        assert m'[qn * 256 + i] == m[qn * 256 + i];
      }
    }
  }

  /** A word outside the written page is unchanged. */
  lemma WordAfterPageWrite(m: Bank, p: Page, pn: nat, addr: Word)
    requires pn < 0x4000 && addr < 0x40_0000 && PageNumber(addr) != pn
    ensures WithPage(m, pn, p)[addr] == m[addr]
  {
  }

  class MainMemory {
    const npages: nat
    const words: array<Word>

    ghost predicate Valid() { words.Length == 0x40_0000 }

    constructor (npages: nat)
      ensures Valid() && fresh(words) && this.npages == npages
      ensures forall i :: 0 <= i < words.Length ==> words[i] == 0
    {
      this.npages := npages;
      words := new Word[0x40_0000](_ => 0);
    }

    method Read(addr: Word) returns (v: Word)
      requires Valid()
      ensures v == ReadPhysical(words[..], npages, addr)
    {
      var pn := addr / 256 % 0x4000;
      if pn < npages && addr < 0x40_0000 { v := words[addr]; } else { v := 0xFFFF_FFFF; }
    }

    method Write(addr: Word, v: Word)
      requires Valid()
      modifies words
      ensures words[..] == WritePhysical(old(words[..]), npages, addr, v)
    {
      var pn := addr / 256 % 0x4000;
      if pn < npages && addr < 0x40_0000 { words[addr] := v; }
    }

    method TryReadWord(addr: Word) returns (ok: bool, v: Word)
      requires Valid()
      ensures ok <==> Populated(npages, addr)
      ensures v == ReadPhysical(words[..], npages, addr)
    {
      var pn := addr / 256 % 0x4000;
      ok := pn < npages && addr < 0x40_0000;
      v := if ok then words[addr] else 0xFFFF_FFFF;
    }

    method ReadPageInto(addr: Word, buffer: array<Word>) returns (ok: bool)
      requires Valid() && buffer.Length == 256 && buffer != words
      modifies buffer
      ensures ok <==> ReadPage(words[..], npages, addr).Some?
      ensures buffer[..] == if ok then ReadPage(words[..], npages, addr).value else old(buffer[..])
    {
      var pn := addr / 256 % 0x4000;
      ok := pn < npages;
      if ok {
        forall i | 0 <= i < 256 { buffer[i] := words[pn * 256 + i]; }
      }
    }

    method WritePageFrom(addr: Word, buffer: array<Word>) returns (ok: bool)
      requires Valid() && buffer.Length == 256 && buffer != words
      modifies words
      ensures ok <==> WritePage(old(words[..]), npages, addr, buffer[..]).Some?
      ensures words[..] == if ok then WritePage(old(words[..]), npages, addr, buffer[..]).value else old(words[..])
    {
      var pn := addr / 256 % 0x4000;
      ok := pn < npages;
      if ok {
        var base := pn * 256;
        forall i | base <= i < base + 256 { words[i] := buffer[i - base]; }
      }
    }
  }
}
