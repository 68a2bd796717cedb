/** Reading texts: trimming, and numerals of one length compared digit by digit. */
module Text {
  function TrimStart(text: string, isWhiteSpace: char -> bool): string {
    if text != [] && isWhiteSpace(text[0]) then TrimStart(text[1..], isWhiteSpace) else text
  }

  function TrimEnd(text: string, isWhiteSpace: char -> bool): string {
    if text != [] && isWhiteSpace(text[|text| - 1]) then TrimEnd(text[..|text| - 1], isWhiteSpace) else text
  }

  function Trim(text: string, isWhiteSpace: char -> bool): string {
    TrimEnd(TrimStart(text, isWhiteSpace), isWhiteSpace)
  }

  ghost predicate AllWhite(text: string, isWhiteSpace: char -> bool) {
    forall k | 0 <= k < |text| :: isWhiteSpace(text[k])
  }

  // `core` begins and ends with no white space.
  ghost predicate IsCore(core: string, isWhiteSpace: char -> bool) {
    core != [] ==> !isWhiteSpace(core[0]) && !isWhiteSpace(core[|core| - 1])
  }

  ghost predicate Surrounds(text: string, front: string, core: string, back: string, isWhiteSpace: char -> bool) {
    text == front + core + back && AllWhite(front, isWhiteSpace) && AllWhite(back, isWhiteSpace)
  }

  lemma {:induction false} TrimStartOf(front: string, rest: string, isWhiteSpace: char -> bool)
    requires AllWhite(front, isWhiteSpace) && (rest != [] ==> !isWhiteSpace(rest[0]))
    ensures TrimStart(front + rest, isWhiteSpace) == rest
    decreases |front|
  {
    if front == [] {
      assert front + rest == rest;
    } else {
      assert (front + rest)[1..] == front[1..] + rest;
      TrimStartOf(front[1..], rest, isWhiteSpace);
    }
  }

  lemma {:induction false} TrimEndOf(rest: string, back: string, isWhiteSpace: char -> bool)
    requires AllWhite(back, isWhiteSpace) && (rest != [] ==> !isWhiteSpace(rest[|rest| - 1]))
    ensures TrimEnd(rest + back, isWhiteSpace) == rest
    decreases |back|
  {
    if back == [] {
      assert rest + back == rest;
    } else {
      assert (rest + back)[..|rest + back| - 1] == rest + back[..|back| - 1];
      TrimEndOf(rest, back[..|back| - 1], isWhiteSpace);
    }
  }

  lemma {:induction false} TrimStartParts(text: string, isWhiteSpace: char -> bool) returns (front: string)
    ensures var rest := TrimStart(text, isWhiteSpace);
            text == front + rest && AllWhite(front, isWhiteSpace) && (rest != [] ==> !isWhiteSpace(rest[0]))
    decreases |text|
  {
    front := [];
    if text != [] && isWhiteSpace(text[0]) {
      front := TrimStartParts(text[1..], isWhiteSpace);
      front := [text[0]] + front;
    }
  }

  lemma {:induction false} TrimEndParts(text: string, isWhiteSpace: char -> bool) returns (back: string)
    ensures var rest := TrimEnd(text, isWhiteSpace);
            text == rest + back && AllWhite(back, isWhiteSpace)
            && (rest != [] ==> !isWhiteSpace(rest[|rest| - 1]) && rest[0] == text[0])
    decreases |text|
  {
    back := [];
    if text != [] && isWhiteSpace(text[|text| - 1]) {
      back := TrimEndParts(text[..|text| - 1], isWhiteSpace);
      back := back + [text[|text| - 1]];
    }
  }

  // Trimming removes exactly the white space around a core.
  lemma TrimIs(text: string, core: string, isWhiteSpace: char -> bool)
    ensures Trim(text, isWhiteSpace) == core
       <==> IsCore(core, isWhiteSpace) && exists front, back :: Surrounds(text, front, core, back, isWhiteSpace)
  {
    var front := TrimStartParts(text, isWhiteSpace);
    var back := TrimEndParts(TrimStart(text, isWhiteSpace), isWhiteSpace);
    assert Surrounds(text, front, Trim(text, isWhiteSpace), back, isWhiteSpace);
    if f, b :| Surrounds(text, f, core, b, isWhiteSpace) && IsCore(core, isWhiteSpace) {
      TrimOf(f, core, b, isWhiteSpace);
    }
  }

  lemma TrimOf(front: string, core: string, back: string, isWhiteSpace: char -> bool)
    requires AllWhite(front, isWhiteSpace) && AllWhite(back, isWhiteSpace) && IsCore(core, isWhiteSpace)
    ensures Trim(front + core + back, isWhiteSpace) == core
  {
    if core == [] {
      assert front + core + back == (front + back) + [];
      TrimStartOf(front + back, [], isWhiteSpace);
    } else {
      assert front + core + back == front + (core + back);
      TrimStartOf(front, core + back, isWhiteSpace);
      TrimEndOf(core, back, isWhiteSpace);
    }
  }

  // The first digits that differ decide between two numerals of one length.
  lemma DigitDecides(p: nat, q: nat, r: nat, s: nat, weight: nat)
    requires r < weight && s < weight
    ensures p < q ==> p * weight + r < q * weight + s
    ensures q < p ==> q * weight + s < p * weight + r
  {
    if p < q {
      assert (p + 1) * weight <= q * weight;
    }
    if q < p {
      assert (q + 1) * weight <= p * weight;
    }
  }
}
