/**
 * The replacement list of final_translate.py and what follows from its order.
 */
module FinalTranslateScript {
  import opened Text
  import opened HadithTable
  import opened FinalTranslate

  const Haddathana: (string, string) := ("حدثنا", "Narrated to us ")
  const WaHaddathana: (string, string) := ("وحدثنا", "And narrated to us ")
  const Akhbarana: (string, string) := ("أخبرنا", "Informed us ")
  const Haddathani: (string, string) := ("حدثني", "Narrated to me ")
  const WaHaddathani: (string, string) := ("وحدثني", "And narrated to me ")
  const Qala: (string, string) := ("قال", "he said ")
  const Yaqulu: (string, string) := ("يقول", "saying ")
  const Samitu: (string, string) := ("سمعت", "I heard ")
  const An: (string, string) := ("عن", "from ")
  const Bin: (string, string) := ("بن", "bin")
  const Abi: (string, string) := ("أبي", "my father")
  const Prophet: (string, string) := ("النبي صلى الله عليه وسلم", "the Prophet (peace be upon him)")
  const Nahwahu: (string, string) := ("نحوه", "similar to it")
  const Bimithlihi: (string, string) := ("بمثله", "similar to it")
  const Bimanahu: (string, string) := ("بمعناه", "with its meaning")
  const BihadhaIsnad: (string, string) := ("بهذا الإسناد", "with this chain of narration")
  const Illa: (string, string) := ("إلا", "except")
  const WaLamYadhkur: (string, string) := ("ولم يذكر", "and he did not mention")
  const WaHadhaAsahh: (string, string) := ("وهذا أصح", "and this is more correct")
  const HadhaHadithHasan: (string, string) := ("هذا حديث حسن", "This is a Hasan Hadith")
  const Sahih: (string, string) := ("صحيح", "Sahih")
  const Gharib: (string, string) := ("غريب", "Gharib (strange/rare)")
  const WaFiAlBab: (string, string) := ("وفي الباب", "And in the chapter")
  const AlAnsar: (string, string) := ("الأنصار", "the Ansar")
  const RadiyaAllahuAnhu: (string, string) := ("رضى الله عنه", "(may Allah be pleased with him)")
  const Ha: (string, string) := ("ح", " [Haylulah - shift in chain] ")
  const Yani: (string, string) := ("يعني", "meaning")

  /** The phrase replacements of `translate_isnad`, applied in this order. */
  const IsnadPairs: Pairs := [
    Haddathana, WaHaddathana, Akhbarana, Haddathani, WaHaddathani, Qala, Yaqulu, Samitu, An,
    Bin, Abi, Prophet, Nahwahu, Bimithlihi, Bimanahu, BihadhaIsnad, Illa, WaLamYadhkur,
    WaHadhaAsahh, HadhaHadithHasan, Sahih, Gharib, WaFiAlBab, AlAnsar, RadiyaAllahuAnhu, Ha,
    Yani
  ]

  /**
   * The pair for "وحدثنا" never fires: it comes straight after the pair for "حدثنا", which
   * it contains, so the conjunction "و" is left in front of "Narrated to us ".
   */
  lemma WaHaddathanaNeverFires(text: string)
    ensures ApplyPairs(text, IsnadPairs[..2]) == ApplyPairs(text, IsnadPairs[..1])
  {
    var ps := IsnadPairs;
    assert ps[0] == Haddathana && ps[1] == WaHaddathana;
    ShadowedConjunction(text, ps, 0, "حدثنا", "Narrated to us ");
  }

  /** Likewise the pair for "وحدثني" never fires after the pair for "حدثني". */
  lemma WaHaddathaniNeverFires(text: string)
    ensures ApplyPairs(text, IsnadPairs[..5]) == ApplyPairs(text, IsnadPairs[..4])
  {
    var ps := IsnadPairs;
    assert ps[3] == Haddathani && ps[4] == WaHaddathani;
    ShadowedConjunction(text, ps, 3, "حدثني", "Narrated to me ");
  }

  /** A pair for "و" and a phrase, straight after the pair for the phrase, never fires. */
  lemma ShadowedConjunction(text: string, ps: Pairs, i: nat, phrase: string, english: string)
    requires i + 1 < |ps| && ps[i] == (phrase, english) && ps[i + 1].0 == "و" + phrase
    requires phrase != [] && english != [] && phrase[0] !in english && english[0] !in phrase
    ensures ApplyPairs(text, ps[..i + 2]) == ApplyPairs(text, ps[..i + 1])
  {
    ContainsInfix("و", phrase, "");
    assert "و" + phrase + "" == "و" + phrase;
    ShadowedPair(text, ps, i);
  }

  /**
   * The single-letter pair for "ح" (the change-of-chain sign) replaces every remaining
   * letter ح, inside names such as محمد as well, so the rendering has none left.
   */
  lemma NoHaLeft(text: string)
    ensures 'ح' !in Rendering(text, IsnadPairs)
  {
    assert 'ح' !in " [Haylulah - shift in chain] ";
    assert 'ح' !in "meaning";
    LetterRemoved(text, IsnadPairs, 'ح');
  }

  /** The script, with its own replacement list; `manual` is its `TRANSLATIONS` table. */
  method TranslateAll(table: array<HadithRow>, manual: map<int, string>) returns (filledCount: nat)
    modifies table
    ensures forall i :: 0 <= i < table.Length ==> table[i] == Rewritten(FinalStep(manual, IsnadPairs), i, old(table[i]))
    ensures filledCount == Rewrites(FinalStep(manual, IsnadPairs), old(table[..]))
  {
    filledCount := FillTargets(table, manual, IsnadPairs);
  }
}
