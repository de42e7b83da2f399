/** One access control list with every kind of entry, byte for byte. */
module AclExample {
  import opened Acl
  import opened AclText
  import opened Bytes
  import opened Decimal
  import opened Format

  // user::rwx,group::r-x,other::r--,user:7:rw-,group:8:-w-,mask::--x
  const TEXT: Text :=
    [117, 115, 101, 114, 58, 58, 114, 119, 120, 44]
    + ([103, 114, 111, 117, 112, 58, 58, 114, 45, 120, 44]
    + ([111, 116, 104, 101, 114, 58, 58, 114, 45, 45, 44]
    + ([117, 115, 101, 114, 58, 55, 58, 114, 119, 45, 44]
    + ([103, 114, 111, 117, 112, 58, 56, 58, 45, 119, 45, 44]
    + [109, 97, 115, 107, 58, 58, 45, 45, 120]))))

  const OWNER_BYTES: seq<byte> := [1, 0, 7, 0, 255, 255, 255, 255]
  const USER_BYTES: seq<byte> := [2, 0, 6, 0, 7, 0, 0, 0]
  const GROUP_BYTES: seq<byte> := [4, 0, 5, 0, 255, 255, 255, 255]
  const NAMED_GROUP_BYTES: seq<byte> := [8, 0, 2, 0, 8, 0, 0, 0]
  const MASK_BYTES: seq<byte> := [16, 0, 1, 0, 255, 255, 255, 255]
  const OTHER_BYTES: seq<byte> := [32, 0, 4, 0, 255, 255, 255, 255]

  const ATTRIBUTE: seq<byte> :=
    [2, 0, 0, 0]
    + (OWNER_BYTES + (USER_BYTES + (GROUP_BYTES + (NAMED_GROUP_BYTES + (MASK_BYTES + OTHER_BYTES)))))

  const A := Ace(0x01, 7, 0xffff_ffff)
  const B := Ace(0x04, 5, 0xffff_ffff)
  const C := Ace(0x20, 4, 0xffff_ffff)
  const D := Ace(0x02, 6, 7)
  const E := Ace(0x08, 2, 8)
  const F := Ace(0x10, 1, 0xffff_ffff)

  const AS_TEXT := [A, B, C, D, E, F]
  const AS_ATTRIBUTE := [A, D, B, E, F, C]

  lemma Pieces()
    ensures AceText(A) == [117, 115, 101, 114, 58, 58, 114, 119, 120]
    ensures AceText(B) == [103, 114, 111, 117, 112, 58, 58, 114, 45, 120]
    ensures AceText(C) == [111, 116, 104, 101, 114, 58, 58, 114, 45, 45]
    ensures AceText(F) == [109, 97, 115, 107, 58, 58, 45, 45, 120]
  {
    hide Join, Print;
    JoinThree(USER, [], PermText(7));
    JoinThree(GROUP, [], PermText(5));
    JoinThree(OTHER, [], PermText(4));
    JoinThree(MASK, [], PermText(1));
  }

  lemma NamedPieces()
    ensures AceText(D) == [117, 115, 101, 114, 58, 55, 58, 114, 119, 45]
    ensures AceText(E) == [103, 114, 111, 117, 112, 58, 56, 58, 45, 119, 45]
  {
    hide Join;
    JoinThree(USER, Print(7), PermText(6));
    JoinThree(GROUP, Print(8), PermText(2));
    assert Print(7) == [55] && Print(8) == [56];
  }

  lemma JoinMore(head: Text, parts: seq<Text>)
    requires parts != []
    ensures Join([head] + parts, COMMA) == head + [COMMA] + Join(parts, COMMA)
  {
    assert ([head] + parts)[1..] == parts;
  }

  lemma Rendered()
    ensures Render(AS_TEXT) == TEXT
  {
    hide Join, AceText;
    Pieces();
    NamedPieces();
    var (a, b, c, d, e, f) := (AceText(A), AceText(B), AceText(C), AceText(D), AceText(E), AceText(F));
    assert Texts(AS_TEXT) == [a] + ([b] + ([c] + ([d] + ([e] + [f]))));
    JoinMore(e, [f]);
    JoinMore(d, [e] + [f]);
    JoinMore(c, [d] + ([e] + [f]));
    JoinMore(b, [c] + ([d] + ([e] + [f])));
    JoinMore(a, [b] + ([c] + ([d] + ([e] + [f]))));
    assert Join([f], COMMA) == f by { JoinOne(f); }
  }

  lemma JoinOne(part: Text)
    ensures Join([part], COMMA) == part
  {
  }

  lemma Entry(a: Ace, bytes: seq<byte>, rest: seq<Ace>)
    requires AceBytes(a) == bytes
    ensures Body([a] + rest) == bytes + Body(rest)
  {
    assert ([a] + rest)[1..] == rest;
  }

  lemma Small(n: nat)
    requires n < 256
    ensures ToLe(n, 2) == [n, 0] && ToLe(n, 4) == [n, 0, 0, 0]
  {
    assert ToLe(0, 1) == [0] && ToLe(0, 2) == [0, 0] && ToLe(0, 3) == [0, 0, 0];
  }

  lemma NoId()
    ensures ToLe(0xffff_ffff, 4) == [255, 255, 255, 255]
  {
    assert ToLe(0xff, 1) == [255] && ToLe(0xffff, 2) == [255, 255] && ToLe(0xff_ffff, 3) == [255, 255, 255];
  }

  lemma Fields()
    ensures AceBytes(A) == OWNER_BYTES && AceBytes(D) == USER_BYTES && AceBytes(B) == GROUP_BYTES
    ensures AceBytes(E) == NAMED_GROUP_BYTES && AceBytes(F) == MASK_BYTES && AceBytes(C) == OTHER_BYTES
  {
    hide ToLe;
    NoId();
    Small(1);
    Small(2);
    Small(4);
    Small(5);
    Small(6);
    Small(7);
    Small(8);
    Small(16);
    Small(32);
  }

  lemma Bodied()
    ensures VERSION + Body(AS_ATTRIBUTE) == ATTRIBUTE
  {
    hide Body, AceBytes;
    Fields();
    assert AS_ATTRIBUTE == [A] + ([D] + ([B] + ([E] + ([F] + ([C] + [])))));
    Entry(C, OTHER_BYTES, []);
    Entry(F, MASK_BYTES, [C] + []);
    Entry(E, NAMED_GROUP_BYTES, [F] + ([C] + []));
    Entry(B, GROUP_BYTES, [E] + ([F] + ([C] + [])));
    Entry(D, USER_BYTES, [B] + ([E] + ([F] + ([C] + []))));
    Entry(A, OWNER_BYTES, [D] + ([B] + ([E] + ([F] + ([C] + [])))));
    assert Body([]) == [];
  }

  lemma TextOrder()
    ensures AllValid(AS_TEXT) && StrictBy(TextKey, AS_TEXT) && Required(AS_TEXT)
  {
    assert AS_TEXT[0].tag == 0x01 && AS_TEXT[1].tag == 0x04 && AS_TEXT[2].tag == 0x20 && AS_TEXT[5].tag == 0x10;
  }

  // Sorting puts an entry behind those with smaller keys.
  lemma {:induction false} Inserted(key: Ace -> int, a: Ace, before: seq<Ace>, after: seq<Ace>)
    requires forall i :: 0 <= i < |before| ==> key(before[i]) < key(a)
    requires after == [] || key(a) <= key(after[0])
    ensures Insert(key, a, before + after) == before + [a] + after
  {
    if before == [] {
      assert before + after == after && before + [a] + after == [a] + after;
    } else {
      Inserted(key, a, before[1..], after);
      assert (before + after)[1..] == before[1..] + after;
      assert before + [a] + after == [before[0]] + (before[1..] + [a] + after);
    }
  }

  lemma SortStep(key: Ace -> int, s: seq<Ace>, before: seq<Ace>, after: seq<Ace>)
    requires s != [] && Sort(key, s[1..]) == before + after
    requires forall i :: 0 <= i < |before| ==> key(before[i]) < key(s[0])
    requires after == [] || key(s[0]) <= key(after[0])
    ensures Sort(key, s) == before + [s[0]] + after
  {
    Inserted(key, s[0], before, after);
  }

  lemma Keys()
    ensures KernelKey(A) < KernelKey(D) < KernelKey(B) < KernelKey(E) < KernelKey(F) < KernelKey(C)
    ensures TextKey(A) < TextKey(B) < TextKey(C) < TextKey(D) < TextKey(E) < TextKey(F)
  {
  }

  lemma ToKernel()
    ensures Sort(KernelKey, AS_TEXT) == AS_ATTRIBUTE
  {
    hide Sort, KernelKey;
    Keys();
    assert Sort(KernelKey, []) == [] by { SortNone(KernelKey); }
    assert [F][1..] == [];
    SortStep(KernelKey, [F], [], []);
    SortStep(KernelKey, [E, F], [], [F]);
    SortStep(KernelKey, [D, E, F], [], [E, F]);
    SortStep(KernelKey, [C, D, E, F], [D, E, F], []);
    SortStep(KernelKey, [B, C, D, E, F], [D], [E, F, C]);
    SortStep(KernelKey, AS_TEXT, [], [D, B, E, F, C]);
  }

  lemma ToText()
    ensures Sort(TextKey, AS_ATTRIBUTE) == AS_TEXT
  {
    hide Sort, TextKey;
    Keys();
    assert Sort(TextKey, []) == [] by { SortNone(TextKey); }
    assert [C][1..] == [];
    SortStep(TextKey, [C], [], []);
    SortStep(TextKey, [F, C], [C], []);
    SortStep(TextKey, [E, F, C], [C], [F]);
    SortStep(TextKey, [B, E, F, C], [], [C, E, F]);
    SortStep(TextKey, [D, B, E, F, C], [B, C], [E, F]);
    SortStep(TextKey, AS_ATTRIBUTE, [], [B, C, D, E, F]);
  }

  lemma SortNone(key: Ace -> int)
    ensures Sort(key, []) == []
  {
  }

  // The text is valid, converts to exactly these bytes, and they convert back to it.
  lemma BothWays(u: Unicode)
    requires Sane(u)
    ensures ValidText(u, TEXT) && XattrOf(u, TEXT) == Some(ATTRIBUTE) && TextOf(u, ATTRIBUTE) == Some(TEXT)
  {
    hide Sane, ValidText, Render, Sort, Body, Entries, AllValid, StrictBy, Required, XattrOf;
    Rendered();
    Bodied();
    TextOrder();
    ToKernel();
    ToText();
    RenderValid(u, AS_TEXT);
    XattrOfRender(u, AS_TEXT);
    BodySorted(AS_TEXT);
    SortValid(KernelKey, AS_TEXT);
  }
}
