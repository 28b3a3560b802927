/** Prefixing a text with a tag and a NUL: how cache keys and seen prefixes are namespaced. */
module Tags {
  const NUL: char := '\0'

  /** `f"{tag}\x00{text}" if tag else text`. */
  function Tagged(tag: string, text: string): string {
    if tag == "" then text else tag + [NUL] + text
  }

  lemma TagEndsAtLastNul(tag: string, text: string)
    requires tag != "" && NUL !in text
    ensures var k := Tagged(tag, text);
            k[..|tag|] == tag && k[|tag|] == NUL && k[|tag| + 1..] == text &&
            forall i :: |tag| < i < |k| ==> k[i] != NUL
  {
    var k := Tagged(tag, text);
    forall i | |tag| < i < |k| ensures k[i] != NUL {
      assert k[i] == text[i - |tag| - 1];
    }
  }

  /** Of NUL-free texts, two tagged ones are equal only if tag and text are. */
  lemma TaggedIsInjective(tag1: string, text1: string, tag2: string, text2: string)
    requires NUL !in text1 && NUL !in text2
    ensures Tagged(tag1, text1) == Tagged(tag2, text2) <==> tag1 == tag2 && text1 == text2
    ensures Tagged("", text1) == text1 && (tag1 != "" ==> Tagged(tag1, text1) == tag1 + "\0" + text1)
  {
    if tag1 != "" { TagEndsAtLastNul(tag1, text1); }
    if tag2 != "" { TagEndsAtLastNul(tag2, text2); }
  }
}
