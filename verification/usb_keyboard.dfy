/** src/ohci.c, usb_find_boot_keyboard: the search through a configuration for a
    keyboard with the boot protocol (USB 2.0, sections 9.6.5 and 9.6.6). */
module UsbKeyboard {
  import opened Bytes

  const DT_INTERFACE: byte := 4
  const DT_ENDPOINT: byte := 5

  datatype Keyboard = Keyboard(interfaceNumber: byte, endpoint: byte, maxPacket: nat, interval: byte)
  datatype Search = NotFound | Found(keyboard: Keyboard)

  /** The descriptor at `o` lies inside the configuration. */
  predicate Fits(s: bytes, o: nat) {
    o + 2 <= |s| && s[o] >= 2 && o + s[o] as int <= |s|
  }

  predicate Interface(s: bytes, o: nat)
    requires Fits(s, o)
  {
    s[o + 1] == DT_INTERFACE && s[o] >= 9
  }

  /** Alternate setting 0, class HID, subclass boot, protocol keyboard. */
  predicate BootKeyboard(s: bytes, o: nat)
    requires Fits(s, o) && Interface(s, o)
  {
    s[o + 3] == 0 && s[o + 5] == 3 && s[o + 6] == 1 && s[o + 7] == 1
  }

  /** An interrupt endpoint towards the host. */
  predicate InterruptIn(s: bytes, o: nat)
    requires Fits(s, o)
  {
    s[o + 1] == DT_ENDPOINT && s[o] >= 7 && s[o + 2] >= 0x80 && s[o + 3] % 4 == 3
  }

  function KeyboardAt(s: bytes, iface: byte, o: nat): Keyboard
    requires Fits(s, o) && InterruptIn(s, o)
  {
    Keyboard(iface, s[o + 2] % 16, s[o + 4] + s[o + 5] as int * 0x100, s[o + 6])
  }

  predicate Acceptable(k: Keyboard) {
    k.interval != 0 && 8 <= k.maxPacket <= 64
  }

  /** The loop from offset `o`; `candidate` says whether the last interface was a
      boot keyboard, and `iface` is the number of the last that was. */
  function SearchFrom(s: bytes, o: nat, candidate: bool, iface: byte): Search
    decreases |s| - o
  {
    if o + 2 > |s| || !Fits(s, o) then NotFound
    else
      var next := o + s[o] as int;
      if Interface(s, o) then
        SearchFrom(s, next, BootKeyboard(s, o), if BootKeyboard(s, o) then s[o + 2] else iface)
      else if candidate && InterruptIn(s, o) then
        var k := KeyboardAt(s, iface, o);
        if Acceptable(k) then Found(k) else NotFound
      else SearchFrom(s, next, candidate, iface)
  }

  /** usb_find_boot_keyboard. */
  method FindBootKeyboard(s: bytes) returns (r: Search)
    ensures r == SearchFrom(s, 0, false, 0)
  {
    var candidate, iface, offset := false, 0, 0;
    while offset + 2 <= |s|
      invariant 0 <= offset && 0 <= iface < 0x100
      invariant SearchFrom(s, 0, false, 0) == SearchFrom(s, offset, candidate, iface)
      decreases |s| - offset
    {
      var dlen, kind := s[offset], s[offset + 1];
      if dlen < 2 || offset + dlen > |s| {
        return NotFound;
      }
      if kind == DT_INTERFACE && dlen >= 9 {
        candidate := s[offset + 3] == 0 && s[offset + 5] == 3 && s[offset + 6] == 1 && s[offset + 7] == 1;
        if candidate {
          iface := s[offset + 2];
        }
      } else if candidate && kind == DT_ENDPOINT && dlen >= 7 && s[offset + 2] >= 0x80 && s[offset + 3] % 4 == 3 {
        var k := Keyboard(iface, s[offset + 2] % 16, s[offset + 4] + s[offset + 5] as int * 0x100, s[offset + 6]);
        return if k.interval != 0 && k.maxPacket >= 8 && k.maxPacket <= 64 then Found(k) else NotFound;
      }
      offset := offset + dlen;
    }
    r := NotFound;
  }

  // ----- the same from the list of descriptors

  /** The offsets of the descriptors up to the end or to the first that does not fit. */
  function Chain(s: bytes, o: nat): (c: seq<nat>)
    ensures forall x :: x in c ==> Fits(s, x)
    decreases |s| - o
  {
    if !Fits(s, o) then [] else [o] + Chain(s, o + s[o] as int)
  }

  /** The interface that descriptor `j` of the chain belongs to: the last one
      before it; -1 if there is none. */
  function OwnerOf(s: bytes, c: seq<nat>, j: nat): (i: int)
    requires j <= |c| && forall x :: x in c ==> Fits(s, x)
    ensures -1 <= i < j && (i >= 0 ==> c[i] in c && c[i] + 9 <= |s| && Interface(s, c[i]))
  {
    if j == 0 then -1 else if Interface(s, c[j - 1]) then j - 1 else OwnerOf(s, c, j - 1)
  }

  /** An interrupt endpoint towards the host of a boot keyboard. */
  predicate Suitable(s: bytes, c: seq<nat>, j: nat)
    requires j < |c| && forall x :: x in c ==> Fits(s, x)
  {
    && InterruptIn(s, c[j]) && OwnerOf(s, c, j) >= 0 && BootKeyboard(s, c[OwnerOf(s, c, j)])
  }

  /** What the search returns from descriptor `j` on, none before being suitable. */
  function Expected(s: bytes, c: seq<nat>, j: nat): Search
    requires j <= |c| && forall x :: x in c ==> Fits(s, x)
    decreases |c| - j
  {
    if j == |c| then NotFound
    else if Suitable(s, c, j) then
      var k := KeyboardAt(s, s[c[OwnerOf(s, c, j)] + 2], c[j]);
      if Acceptable(k) then Found(k) else NotFound
    else Expected(s, c, j + 1)
  }

  /** The search returns the first suitable endpoint of the configuration, with
      the number of its interface, if its interval and packet size are in range;
      and nothing in every other case. */
  lemma SearchIs(s: bytes)
    ensures SearchFrom(s, 0, false, 0) == Expected(s, Chain(s, 0), 0)
  {
    SearchStep(s, Chain(s, 0), 0, 0, false, 0);
  }

  lemma {:induction false} SearchStep(s: bytes, c: seq<nat>, j: nat, o: nat, candidate: bool, iface: byte)
    requires j <= |c| && (forall x :: x in c ==> Fits(s, x)) && c[j..] == Chain(s, o)
    requires candidate <==> OwnerOf(s, c, j) >= 0 && BootKeyboard(s, c[OwnerOf(s, c, j)])
    requires candidate ==> iface == s[c[OwnerOf(s, c, j)] + 2]
    ensures SearchFrom(s, o, candidate, iface) == Expected(s, c, j)
    decreases |c| - j
  {
    hide BootKeyboard, KeyboardAt, Acceptable, Chain, Expected, OwnerOf, SearchFrom;
    if j < |c| { ExpectedStep(s, c, j); }
    ChainStarts(s, c, j, o);
    SearchUnfold(s, o, candidate, iface);
    if Fits(s, o) {
      var next := o + s[o] as int;
      ChainStep(s, c, j, o);
      if Interface(s, o) {
        SearchStep(s, c, j + 1, next, BootKeyboard(s, o), if BootKeyboard(s, o) then s[o + 2] else iface);
      } else if !(candidate && InterruptIn(s, o)) {
        SearchStep(s, c, j + 1, next, candidate, iface);
      }
    } else {
      ExpectedEnd(s, c);
    }
  }

  lemma ChainStarts(s: bytes, c: seq<nat>, j: nat, o: nat)
    requires j <= |c| && c[j..] == Chain(s, o)
    ensures j < |c| <==> Fits(s, o)
  {
    hide Fits;
  }

  lemma ExpectedEnd(s: bytes, c: seq<nat>)
    requires forall x :: x in c ==> Fits(s, x)
    ensures Expected(s, c, |c|) == NotFound
  {}

  /** What a descriptor adds for those behind it. */
  lemma ExpectedStep(s: bytes, c: seq<nat>, j: nat)
    requires j < |c| && forall x :: x in c ==> Fits(s, x)
    ensures OwnerOf(s, c, j + 1) == if Interface(s, c[j]) then j else OwnerOf(s, c, j)
    ensures Expected(s, c, j) ==
            if Suitable(s, c, j) then
              var k := KeyboardAt(s, s[c[OwnerOf(s, c, j)] + 2], c[j]);
              if Acceptable(k) then Found(k) else NotFound
            else Expected(s, c, j + 1)
  {
    hide BootKeyboard, KeyboardAt, Acceptable, Interface, InterruptIn;
  }

  lemma SearchUnfold(s: bytes, o: nat, candidate: bool, iface: byte)
    ensures SearchFrom(s, o, candidate, iface) ==
            if !Fits(s, o) then NotFound
            else if Interface(s, o) then
              SearchFrom(s, o + s[o] as int, BootKeyboard(s, o), if BootKeyboard(s, o) then s[o + 2] else iface)
            else if candidate && InterruptIn(s, o) then
              var k := KeyboardAt(s, iface, o);
              if Acceptable(k) then Found(k) else NotFound
            else SearchFrom(s, o + s[o] as int, candidate, iface)
  {
    hide BootKeyboard, KeyboardAt, Acceptable, Interface, InterruptIn;
  }

  lemma ChainStep(s: bytes, c: seq<nat>, j: nat, o: nat)
    requires j <= |c| && c[j..] == Chain(s, o) && Fits(s, o)
    ensures j < |c| && c[j] == o && c[j + 1..] == Chain(s, o + s[o] as int)
  {
    hide Fits;
    assert c[j] == c[j..][0] == o && c[j + 1..] == c[j..][1..];
  }

  lemma {:induction false} FoundAcceptable(s: bytes, o: nat, candidate: bool, iface: byte)
    requires SearchFrom(s, o, candidate, iface).Found?
    ensures Acceptable(SearchFrom(s, o, candidate, iface).keyboard)
    ensures SearchFrom(s, o, candidate, iface).keyboard.endpoint < 16
    decreases |s| - o
  {
    var next := o + s[o] as int;
    if Interface(s, o) {
      FoundAcceptable(s, next, BootKeyboard(s, o), if BootKeyboard(s, o) then s[o + 2] else iface);
    } else if !(candidate && InterruptIn(s, o)) {
      FoundAcceptable(s, next, candidate, iface);
    }
  }
}
