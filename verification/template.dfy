/** The string rewrites the application performs before rendering: the X/Y
    rescale of the model template and the `_scaled` name of the rewritten
    template file. The scale values reach the template as their Python `str`
    form, modelled here as arbitrary strings. */
module Template {
  import opened PyStrings

  /** The default scale `0.25`. The code assumes the template's X and Y slots
      are its first two occurrences of it. */
  const Slot: string := "0.25"

  lemma SlotHasNoBorder()
    ensures NoBorder(Slot)
  {
    assert Slot[1..] != Slot[..3] && Slot[2..] != Slot[..2] && Slot[3..] != Slot[..1];
  }

  /** The rescale as written: replace the first `0.25` by the X scale, then the
      first `0.25` of that result by the Y scale. */
  function Rescale(text: string, sx: string, sy: string): (r: string)
    ensures Absent(text, Slot) ==> r == text
  {
    ReplaceFirst(ReplaceFirst(text, Slot, sx), Slot, sy)
  }

  /** The text before the first slot survives the rescale, except for its
      last |Slot| - 1 (three) characters: the X string can complete a `0.25`
      begun there, which the second step then replaces. */
  lemma RescaleKeepsTextBeforeFirstSlot(text: string, sx: string, sy: string, i: nat)
    requires IsFirstAt(text, Slot, i) && i >= |Slot| - 1
    ensures |Rescale(text, sx, sy)| >= i - (|Slot| - 1)
    ensures Rescale(text, sx, sy)[..i - (|Slot| - 1)] == text[..i - (|Slot| - 1)]
  {
    ReplaceFirstAt(text, Slot, sx, i);
    var once := ReplaceFirst(text, Slot, sx);
    assert once[..i] == text[..i];
    match Find(once, Slot)
    case None =>
    case Some(f) =>
      SharedPrefixSlot(text, once, i, f);
      assert f + |Slot| > i;
      ReplaceFirstAt(once, Slot, sy, f);
  }

  /** A slot that ends before `i` in a text agreeing with `text` up to `i`
      is a slot of `text` too. */
  lemma SharedPrefixSlot(text: string, once: string, i: nat, f: nat)
    requires |once| >= i && |text| >= i && once[..i] == text[..i]
    requires OccursAt(once, Slot, f)
    ensures f + |Slot| <= i ==> OccursAt(text, Slot, f)
  {
    if f + |Slot| <= i {
      assert once[f..f + |Slot|] == once[..i][f..f + |Slot|];
      assert text[f..f + |Slot|] == text[..i][f..f + |Slot|];
    }
  }

  /** A counterexample to keeping the whole prefix: the template text `0.2`
      before the slot and an X string starting with `5` make a new `0.25`. */
  lemma RescaleCanRewriteBeforeFirstSlot()
    ensures Rescale("0.2" + Slot, "5", "1") == "1"
  {
    SlotHasNoBorder();
    assert Absent("0.2", Slot);
    FirstAfterAbsentPrefix("0.2", Slot, "");
    assert "0.2" + Slot + "" == "0.2" + Slot;
    ReplaceFirstAt("0.2" + Slot, Slot, "5", 3);
    assert ReplaceFirst("0.2" + Slot, Slot, "5") == Slot;
    assert IsFirstAt(Slot, Slot, 0);
    ReplaceFirstAt(Slot, Slot, "1", 0);
  }

  /** At 100 % X scale the X string is `0.25` itself: the first step changes
      nothing, and the second step writes the Y scale into the X slot while
      the Y slot keeps `0.25`. */
  lemma {:induction false} RescaleAtFullXScaleMissesYSlot(pre: string, mid: string, post: string, sy: string)
    requires Absent(pre, Slot)
    ensures Rescale(pre + Slot + (mid + Slot + post), Slot, sy) == pre + sy + (mid + Slot + post)
  {
    var text := pre + Slot + (mid + Slot + post);
    SlotHasNoBorder();
    FirstAfterAbsentPrefix(pre, Slot, mid + Slot + post);
    ReplaceFirstWithItself(text, Slot);
    ReplaceFirstAt(text, Slot, sy, |pre|);
    CutAround(pre, Slot, mid + Slot + post);
  }

  /** The rescale as intended: the X scale into the first slot of the
      template and the Y scale into the next slot after it, both located in
      the original text, whatever the X string contains. */
  function RescaleSlots(text: string, sx: string, sy: string): (r: string)
    ensures Absent(text, Slot) ==> r == text
  {
    match Find(text, Slot)
    case None => text
    case Some(i) => text[..i] + sx + ReplaceFirst(text[i + |Slot|..], Slot, sy)
  }

  /** With the first slot at `i`, the X string replaces it and the Y string
      replaces the first slot after it. */
  lemma RescaleSlotsAt(text: string, sx: string, sy: string, i: nat)
    requires IsFirstAt(text, Slot, i)
    ensures RescaleSlots(text, sx, sy) == text[..i] + sx + ReplaceFirst(text[i + |Slot|..], Slot, sy)
  {
    FirstIsUnique(text, Slot, i, Find(text, Slot).value);
  }

  /** With the template laid out as `pre 0.25 mid 0.25 post`, where neither
      `pre` nor `mid` holds a `0.25`, the X scale lands in the first slot
      and the Y scale in the second, for every X and Y string. */
  lemma {:induction false} RescaleSlotsFillsBothSlots(pre: string, mid: string, post: string, sx: string, sy: string)
    requires Absent(pre, Slot) && Absent(mid, Slot)
    ensures RescaleSlots(pre + Slot + (mid + Slot + post), sx, sy) == pre + sx + (mid + sy + post)
  {
    var text := pre + Slot + (mid + Slot + post);
    SlotHasNoBorder();
    FirstAfterAbsentPrefix(pre, Slot, mid + Slot + post);
    FirstAfterAbsentPrefix(mid, Slot, post);
    RescaleSlotsAt(text, sx, sy, |pre|);
    CutAround(pre, Slot, mid + Slot + post);
    ReplaceFirstAt(mid + Slot + post, Slot, sy, |mid|);
    CutAround(mid, Slot, post);
  }

  /** Any X string that begins with `0.25` (100 % gives `0.25`; 101, 102 and
      103 % give `0.2525`, `0.255` and `0.2575`) leaves a `0.25` at the X slot,
      which the second step then replaces by the Y string; the Y slot, further
      on, is kept. */
  lemma {:induction false} RescaleWithSlotPrefixedXMissesYSlot(pre: string, rest: string, t: string, sy: string)
    requires Absent(pre, Slot)
    ensures Rescale(pre + Slot + rest, Slot + t, sy) == pre + sy + (t + rest)
  {
    ReplaceSlotAfterAbsentPrefix(pre, rest, Slot + t);
    assert pre + (Slot + t) + rest == pre + Slot + (t + rest);
    ReplaceSlotAfterAbsentPrefix(pre, t + rest, sy);
  }

  /** One step of the rescale: after a prefix without `0.25`, the first slot
      is the one right after the prefix, and it alone is replaced. */
  lemma {:induction false} ReplaceSlotAfterAbsentPrefix(pre: string, rest: string, repl: string)
    requires Absent(pre, Slot)
    ensures ReplaceFirst(pre + Slot + rest, Slot, repl) == pre + repl + rest
  {
    SlotHasNoBorder();
    FirstAfterAbsentPrefix(pre, Slot, rest);
    ReplaceFirstAt(pre + Slot + rest, Slot, repl, |pre|);
    CutAround(pre, Slot, rest);
  }

  /** Whenever the X string does not form a new `0.25` together with the text
      around it, the rescale as written fills the same two slots as the
      slot-wise rescale: line 112 goes wrong only through such an X string. */
  lemma {:induction false} RescaleAgreesWithSlots(pre: string, mid: string, post: string, sx: string, sy: string)
    requires Absent(pre, Slot) && Absent(mid, Slot) && Absent(pre + sx + mid, Slot)
    ensures Rescale(pre + Slot + (mid + Slot + post), sx, sy)
         == RescaleSlots(pre + Slot + (mid + Slot + post), sx, sy)
  {
    var text := pre + Slot + (mid + Slot + post);
    calc {
      Rescale(text, sx, sy);
      ReplaceFirst(ReplaceFirst(text, Slot, sx), Slot, sy);
      { ReplaceSlotAfterAbsentPrefix(pre, mid + Slot + post, sx); }
      ReplaceFirst(pre + sx + (mid + Slot + post), Slot, sy);
      { assert pre + sx + (mid + Slot + post) == (pre + sx + mid) + Slot + post; }
      ReplaceFirst((pre + sx + mid) + Slot + post, Slot, sy);
      { ReplaceSlotAfterAbsentPrefix(pre + sx + mid, post, sy); }
      (pre + sx + mid) + sy + post;
      pre + sx + (mid + sy + post);
      { RescaleSlotsFillsBothSlots(pre, mid, post, sx, sy); }
      RescaleSlots(text, sx, sy);
    }
  }

  /** A template with an X slot and a Y slot: `scale([0.25, 0.25])`. */
  const TwoSlotTemplate: string := "scale([" + Slot + (", " + Slot + "])")

  /** At 100 % X scale and 50 % Y scale (X string `0.25`, Y string `0.125`)
      the as-written rescale gives `scale([0.125, 0.25])`, the Y scale in the
      X slot, where the slot-wise rescale gives `scale([0.25, 0.125])`. */
  lemma FullXScaleCounterexample()
    ensures Rescale(TwoSlotTemplate, Slot, "0.125") == "scale([" + "0.125" + (", " + Slot + "])")
    ensures RescaleSlots(TwoSlotTemplate, Slot, "0.125") == "scale([" + Slot + (", " + "0.125" + "])")
  {
    AbsentWithoutFirstChar("scale([", Slot);
    AbsentWithoutFirstChar(", ", Slot);
    RescaleAtFullXScaleMissesYSlot("scale([", ", ", "])", "0.125");
    RescaleSlotsFillsBothSlots("scale([", ", ", "])", Slot, "0.125");
  }

  /** The extension of the template files. */
  const Extension: string := ".scad"

  lemma ExtensionHasNoBorder()
    ensures NoBorder(Extension)
  {
    assert Extension[1..] != Extension[..4] && Extension[2..] != Extension[..3];
    assert Extension[3..] != Extension[..2] && Extension[4..] != Extension[..1];
  }

  /** The scaled run file name as written: every `.scad` in the whole path
      becomes `_scaled.scad`. */
  function ScaledPath(path: string): (r: string)
    ensures Absent(path, Extension) ==> r == path
  {
    ReplaceAll(path, Extension, "_scaled.scad")
  }

  /** A path whose only `.scad` is its extension gets `_scaled` before it. */
  lemma {:induction false} ScaledPathRenamesExtension(base: string)
    requires Absent(base, Extension)
    ensures ScaledPath(base + Extension) == base + "_scaled.scad"
  {
    ExtensionHasNoBorder();
    FirstAfterAbsentPrefix(base, Extension, "");
    assert base + Extension + "" == base + Extension;
    ReplaceAllAtFirst(base, Extension, "", "_scaled.scad");
    assert ReplaceAll("", Extension, "_scaled.scad") == "" by {
      assert Absent("", Extension);
    }
  }

  /** A `.scad` inside a directory name is rewritten too, which names a
      directory that does not exist. */
  lemma ScaledPathRewritesDirectories()
    ensures ScaledPath("/srv/a" + Extension + ("/preview" + Extension))
         == "/srv/a" + "_scaled.scad" + ("/preview" + "_scaled.scad")
  {
    ExtensionHasNoBorder();
    AbsentWithoutFirstChar("/srv/a", Extension);
    AbsentWithoutFirstChar("/preview", Extension);
    FirstAfterAbsentPrefix("/srv/a", Extension, "/preview" + Extension);
    ReplaceAllAtFirst("/srv/a", Extension, "/preview" + Extension, "_scaled.scad");
    ScaledPathRenamesExtension("/preview");
  }

  /** The scaled run file name as intended: only a trailing `.scad` is
      renamed; a path without that extension is kept. */
  function ScaledRunFile(path: string): string
  {
    if |path| >= |Extension| && path[|path| - |Extension|..] == Extension then
      path[..|path| - |Extension|] + "_scaled.scad"
    else path
  }

  /** Whatever the rest of the path holds, only the file's extension is
      renamed; and the result agrees with the as-written rewrite whenever the
      extension is the path's only `.scad`. */
  lemma ScaledRunFileRenamesOnlyTheFile(base: string)
    ensures ScaledRunFile(base + Extension) == base + "_scaled.scad"
    ensures Absent(base, Extension) ==> ScaledRunFile(base + Extension) == ScaledPath(base + Extension)
  {
    var path := base + Extension;
    assert path[|path| - |Extension|..] == Extension;
    assert path[..|path| - |Extension|] == base;
    if Absent(base, Extension) {
      ScaledPathRenamesExtension(base);
    }
  }

  /** On the directory example the intended rewrite leaves the directory alone. */
  lemma ScaledRunFileKeepsDirectories()
    ensures ScaledRunFile("/srv/a" + Extension + ("/preview" + Extension))
         == "/srv/a" + Extension + ("/preview" + "_scaled.scad")
  {
    ScaledRunFileRenamesOnlyTheFile("/srv/a" + Extension + "/preview");
    assert "/srv/a" + Extension + ("/preview" + Extension) == "/srv/a" + Extension + "/preview" + Extension;
  }
}
