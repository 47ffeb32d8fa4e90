/** The keyboard shortcuts (script.js lines 142-151): `t` in either case
    scrolls to the top, and a key that is exactly one digit `1` to `9`
    scrolls to the `.section-title` of that position, when there is one. */
module Shortcuts {
  import opened Text

  /** What a key press asks for: a scroll to the top, and the index of the
      section title to scroll to. */
  datatype KeyEffect = KeyEffect(toTop: bool, section: Option<nat>)

  /** `/^[1-9]$/`: one character, a digit other than zero. Without the `m`
      flag `$` matches only at the end of the key. */
  predicate IsSectionKey(key: string)
    ensures IsSectionKey(key) ==> AllDigits(key) && 1 <= DecimalValue(key) <= 9
  {
    |key| == 1 && '1' <= key[0] <= '9'
  }

  /** The effect of `keydown` with `key` on a page with `sectionCount`
      elements matching `.section-title`; card titles do not count. */
  function OnKeyDown(key: string, sectionCount: nat): (e: KeyEffect)
    ensures e.toTop <==> key == "t" || key == "T"
    ensures e.section.Some? <==> IsSectionKey(key) && (key[0] as int - '1' as int) < sectionCount
    ensures e.section.Some? ==> e.section.value == key[0] as int - '1' as int
  {
    LowerIsT(key);
    var top := LowerStr(key) == "t";
    var section :=
      if IsSectionKey(key) then
        assert key[..0] == [];
        assert DecimalValue(key) == key[0] as int - '0' as int;
        var idx := DecimalValue(key) - 1;
        if 0 <= idx < sectionCount then Some(idx as nat) else None
      else None;
    KeyEffect(top, section)
  }

  /** Only `t` and `T` lower-case to `t`. */
  lemma LowerIsT(key: string)
    ensures LowerStr(key) == "t" <==> key == "t" || key == "T"
  {
    if |key| == 1 {
      assert LowerStr(key)[0] == LowerChar(key[0]);
      if LowerChar(key[0]) == 't' {
        assert key[0] == 't' || key[0] == 'T';
      }
    }
  }

  /** One key never asks for both scrolls. */
  lemma TopAndSectionExclusive(key: string, sectionCount: nat)
    ensures !(OnKeyDown(key, sectionCount).toTop && OnKeyDown(key, sectionCount).section.Some?)
  {
  }

  /** `0` and keys longer than one character ask for no section, and a digit
      beyond the number of section titles asks for nothing. */
  lemma IgnoredKeys(key: string, sectionCount: nat)
    ensures key == "0" ==> OnKeyDown(key, sectionCount) == KeyEffect(false, None)
    ensures |key| != 1 ==> OnKeyDown(key, sectionCount).section == None
    ensures IsSectionKey(key) && sectionCount <= key[0] as int - '1' as int ==>
      OnKeyDown(key, sectionCount) == KeyEffect(false, None)
  {
  }
}
