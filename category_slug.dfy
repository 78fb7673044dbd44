/** The category links of the home page: the path segment of a category is
    its name lower-cased, with every run of white space replaced by one "-"
    and every "ё" by "е" (`name.toLowerCase().replace(/\s+/g, "-").replace(/ё/g, "е")`). */
module CategorySlug {
  import opened JsValues

  const Yo: char := 'ё'
  const CapitalYo: char := 'Ё'
  const Ye: char := 'е'

  /** `toLowerCase` on one character, for Basic Latin, Latin-1, and the
      Cyrillic and Cyrillic Supplement blocks (U+0400 to U+052F); every other
      character is kept. Beyond U+0460 the Cyrillic capitals pair with the
      next code point: the even ones in most ranges, the odd ones from U+04C1
      to U+04CE, and U+04C0 with U+04CF. */
  function LowerChar(c: char): char {
    if 'A' <= c <= 'Z' then (c as int + 32) as char
    else if '\U{00C0}' <= c <= '\U{00DE}' && c != '\U{00D7}' then (c as int + 32) as char
    else if '\U{0410}' <= c <= '\U{042F}' then (c as int + 32) as char
    else if '\U{0400}' <= c <= '\U{040F}' then (c as int + 80) as char
    else if
      && ('\U{0460}' <= c <= '\U{0481}' || '\U{048A}' <= c <= '\U{04BF}' || '\U{04D0}' <= c <= '\U{052F}')
      && c as int % 2 == 0
    then (c as int + 1) as char
    else if '\U{04C1}' <= c <= '\U{04CE}' && c as int % 2 == 1 then (c as int + 1) as char
    else if c == '\U{04C0}' then '\U{04CF}'
    else c
  }

  /** `s.toLowerCase()`. */
  function Lower(s: string): string {
    seq(|s|, i requires 0 <= i < |s| => LowerChar(s[i]))
  }

  /** `s.replace(/\s+/g, "-")`: scanning left to right, each maximal run of
      white space becomes one "-", every other character is kept. */
  function CollapseSpaces(s: string): string
    decreases |s|
  {
    if s == [] then []
    else if IsJsSpace(s[0]) then "-" + CollapseSpaces(TrimStart(s))
    else [s[0]] + CollapseSpaces(s[1..])
  }

  /** `s.replace(/ё/g, "е")`. */
  function ReplaceYo(s: string): string {
    seq(|s|, i requires 0 <= i < |s| => if s[i] == Yo then Ye else s[i])
  }

  /** The path segment of the category called `name`. */
  function Slug(name: string): string {
    ReplaceYo(CollapseSpaces(Lower(name)))
  }

  // ---------------------------------------------------------------------------
  // A reference definition, one character of the name at a time

  /** What a character other than white space becomes in the slug. */
  function Fold(c: char): char {
    var l := LowerChar(c);
    if l == Yo then Ye else l
  }

  /** The contribution of `s[i]` to the slug: white space that starts a run
      gives "-", white space that continues a run gives nothing, and any
      other character gives its folded form. */
  function Piece(s: string, i: nat): string
    requires i < |s|
  {
    if IsJsSpace(s[i]) then (if i > 0 && IsJsSpace(s[i - 1]) then "" else "-")
    else [Fold(s[i])]
  }

  /** The contributions of `s[i..]`, concatenated. */
  function PiecesFrom(s: string, i: nat): string
    requires i <= |s|
    decreases |s| - i
  {
    if i == |s| then "" else Piece(s, i) + PiecesFrom(s, i + 1)
  }

  /** The same, left to right, remembering whether the character before was
      white space. */
  function Scan(s: string, afterSpace: bool): string {
    if s == [] then []
    else if IsJsSpace(s[0]) then (if afterSpace then "" else "-") + Scan(s[1..], true)
    else [Fold(s[0])] + Scan(s[1..], false)
  }

  // ---------------------------------------------------------------------------
  // Character facts

  /** Lower-casing keeps white space and "-" as they are, is idempotent,
      and yields "ё" exactly from "ё" and "Ё". */
  lemma LowerCharFacts(c: char)
    ensures IsJsSpace(LowerChar(c)) <==> IsJsSpace(c)
    ensures LowerChar(c) == '-' <==> c == '-'
    ensures LowerChar(LowerChar(c)) == LowerChar(c)
    ensures LowerChar(c) == Yo <==> c == Yo || c == CapitalYo
  {
  }

  /** The letters of the Kazakh alphabet beyond Russian's are lower-cased:
      Ә, Ғ, Қ, Ң, Ө, Ұ, Ү, Һ and the Ukrainian І. */
  lemma LowerKazakhLetters()
    ensures LowerChar('Ә') == 'ә' && LowerChar('Ғ') == 'ғ' && LowerChar('Қ') == 'қ'
    ensures LowerChar('Ң') == 'ң' && LowerChar('Ө') == 'ө' && LowerChar('Ұ') == 'ұ'
    ensures LowerChar('Ү') == 'ү' && LowerChar('Һ') == 'һ' && LowerChar('І') == 'і'
  {
  }

  /** A folded character is neither white space (unless the character was)
      nor "ё", is "-" only for "-", and folds to itself. */
  lemma FoldFacts(c: char)
    ensures IsJsSpace(Fold(c)) <==> IsJsSpace(c)
    ensures Fold(c) != Yo
    ensures Fold(c) == '-' <==> c == '-'
    ensures Fold(Fold(c)) == Fold(c)
  {
    LowerCharFacts(c);
    LowerCharFacts(Ye);
  }

  lemma TrimStartLower(s: string)
    ensures TrimStart(Lower(s)) == Lower(TrimStart(s))
    decreases |s|
  {
    if s != [] {
      LowerCharFacts(s[0]);
      if IsJsSpace(s[0]) {
        assert Lower(s)[1..] == Lower(s[1..]);
        TrimStartLower(s[1..]);
      }
    }
  }

  lemma ReplaceYoAppend(a: string, b: string)
    ensures ReplaceYo(a + b) == ReplaceYo(a) + ReplaceYo(b)
  {
  }

  /** After white space, the scan skips the rest of the run and then goes
      on as at the start. */
  lemma {:induction false} ScanAfterSpace(s: string)
    ensures Scan(s, true) == Scan(TrimStart(s), false)
    decreases |s|
  {
    if s != [] && IsJsSpace(s[0]) {
      ScanAfterSpace(s[1..]);
    }
  }

  // ---------------------------------------------------------------------------
  // The slug against the reference

  lemma CollapseSpacesOfSpaceHead(l: string)
    requires l != [] && IsJsSpace(l[0])
    ensures CollapseSpaces(l) == "-" + CollapseSpaces(TrimStart(l))
  {
  }

  /** A name that starts with white space: one "-", then the slug of the
      name after the run. */
  lemma SlugOfSpaceHead(s: string)
    requires s != [] && IsJsSpace(s[0])
    ensures Slug(s) == "-" + Slug(TrimStart(s))
  {
    var l := Lower(s);
    var tail := CollapseSpaces(Lower(TrimStart(s)));
    LowerSpaceHead(s);
    CollapseSpacesOfSpaceHead(l);
    TrimStartLower(s);
    assert CollapseSpaces(l) == "-" + tail;
    ReplaceYoAppend("-", tail);
    assert ReplaceYo("-") == "-";
  }

  lemma LowerSpaceHead(s: string)
    requires s != [] && IsJsSpace(s[0])
    ensures Lower(s) != [] && IsJsSpace(Lower(s)[0])
  {
    LowerCharFacts(s[0]);
  }

  /** A name that starts with another character: its folded form, then the
      slug of the rest. */
  lemma SlugOfOtherHead(s: string)
    requires s != [] && !IsJsSpace(s[0])
    ensures Slug(s) == [Fold(s[0])] + Slug(s[1..])
  {
    LowerCharFacts(s[0]);
    var l := Lower(s);
    assert l[0] == LowerChar(s[0]);
    assert l[1..] == Lower(s[1..]);
    assert CollapseSpaces(l) == [LowerChar(s[0])] + CollapseSpaces(Lower(s[1..]));
    ReplaceYoAppend([LowerChar(s[0])], CollapseSpaces(Lower(s[1..])));
  }

  lemma {:induction false} SlugIsScan(s: string)
    ensures Slug(s) == Scan(s, false)
    decreases |s|
  {
    if s != [] {
      if IsJsSpace(s[0]) {
        SlugOfSpaceHead(s);
        SlugIsScan(TrimStart(s));
        ScanAfterSpace(s[1..]);
        assert TrimStart(s) == TrimStart(s[1..]);
      } else {
        SlugOfOtherHead(s);
        SlugIsScan(s[1..]);
      }
    }
  }

  lemma {:induction false} ScanIsPieces(s: string, i: nat)
    requires i <= |s|
    ensures Scan(s[i..], i > 0 && IsJsSpace(s[i - 1])) == PiecesFrom(s, i)
    decreases |s| - i
  {
    if i < |s| {
      ScanIsPieces(s, i + 1);
      assert s[i..][1..] == s[i + 1..];
    }
  }

  /** The slug is the concatenation of the characters' contributions: each
      maximal run of white space gives exactly one "-", and every other
      character its lower-case form, with "ё" as "е", in the name's order. */
  lemma SlugSpec(s: string)
    ensures Slug(s) == PiecesFrom(s, 0)
  {
    SlugIsScan(s);
    ScanIsPieces(s, 0);
    assert s[0..] == s;
  }

  // ---------------------------------------------------------------------------
  // Consequences

  /** `s` has no white space and no "ё", and folds to itself. */
  predicate Folded(s: string) {
    forall i :: 0 <= i < |s| ==> !IsJsSpace(s[i]) && s[i] != Yo && Fold(s[i]) == s[i]
  }

  lemma {:induction false} ScanFolded(s: string, afterSpace: bool)
    ensures Folded(Scan(s, afterSpace))
    decreases |s|
  {
    if s != [] {
      FoldFacts(s[0]);
      FoldFacts('-');
      ScanFolded(s[1..], IsJsSpace(s[0]));
    }
  }

  /** A slug holds no white space and no "ё" (an "Ё" of the name included). */
  lemma SlugFolded(s: string)
    ensures forall i :: 0 <= i < |Slug(s)| ==> !IsJsSpace(Slug(s)[i]) && Slug(s)[i] != Yo
  {
    SlugIsScan(s);
    ScanFolded(s, false);
  }

  lemma {:induction false} ScanOfFolded(t: string, afterSpace: bool)
    requires Folded(t)
    ensures Scan(t, afterSpace) == t
    decreases |t|
  {
    if t != [] {
      assert Folded(t[1..]);
      ScanOfFolded(t[1..], false);
    }
  }

  /** Slugging a slug changes nothing. */
  lemma SlugIdempotent(s: string)
    ensures Slug(Slug(s)) == Slug(s)
  {
    var t := Slug(s);
    SlugIsScan(s);
    ScanFolded(s, false);
    SlugIsScan(t);
    ScanOfFolded(t, false);
  }

  /** The characters of `s` that are neither white space nor "-". */
  function Letters(s: string): string {
    if s == [] then []
    else if IsJsSpace(s[0]) || s[0] == '-' then Letters(s[1..])
    else [s[0]] + Letters(s[1..])
  }

  function FoldAll(s: string): string {
    seq(|s|, i requires 0 <= i < |s| => Fold(s[i]))
  }

  lemma LettersOfDashHead(x: string)
    ensures Letters("-" + x) == Letters(x)
  {
    assert ("-" + x)[0] == '-' && ("-" + x)[1..] == x;
  }

  lemma {:induction false} ScanLetters(s: string, afterSpace: bool)
    ensures Letters(Scan(s, afterSpace)) == FoldAll(Letters(s))
    decreases |s|
  {
    if s != [] {
      FoldFacts(s[0]);
      ScanLetters(s[1..], IsJsSpace(s[0]));
      if IsJsSpace(s[0]) {
        var x := Scan(s[1..], true);
        assert Letters(s) == Letters(s[1..]);
        if afterSpace {
          assert Scan(s, afterSpace) == "" + x;
          assert "" + x == x;
        } else {
          assert Scan(s, afterSpace) == "-" + x;
          LettersOfDashHead(x);
        }
      } else if s[0] == '-' {
        assert Scan(s, afterSpace) == ['-'] + Scan(s[1..], false);
        assert Letters(['-'] + Scan(s[1..], false)) == Letters(Scan(s[1..], false));
      } else {
        assert Scan(s, afterSpace) == [Fold(s[0])] + Scan(s[1..], false);
        assert Letters([Fold(s[0])] + Scan(s[1..], false)) == [Fold(s[0])] + Letters(Scan(s[1..], false));
        assert FoldAll([s[0]] + Letters(s[1..])) == [Fold(s[0])] + FoldAll(Letters(s[1..]));
      }
    }
  }

  /** The characters that are neither white space nor "-" keep their order,
      each replaced by its folded form. */
  lemma SlugKeepsLetters(s: string)
    ensures Letters(Slug(s)) == FoldAll(Letters(s))
  {
    SlugIsScan(s);
    ScanLetters(s, false);
  }

  predicate NoSpace(w: string) {
    forall i :: 0 <= i < |w| ==> !IsJsSpace(w[i])
  }

  lemma {:induction false} ScanWordThen(w: string, rest: string, afterSpace: bool)
    requires NoSpace(w)
    ensures w != [] ==> Scan(w + rest, afterSpace) == FoldAll(w) + Scan(rest, false)
    ensures w == [] ==> Scan(w + rest, afterSpace) == Scan(rest, afterSpace)
    decreases |w|
  {
    if w != [] {
      assert (w + rest)[0] == w[0] && (w + rest)[1..] == w[1..] + rest;
      assert NoSpace(w[1..]);
      ScanWordThen(w[1..], rest, false);
      assert FoldAll(w) == [Fold(w[0])] + FoldAll(w[1..]);
    } else {
      assert w + rest == rest;
    }
  }

  /** A name of one word: the word, folded. */
  lemma OneWordSlug(w: string)
    requires NoSpace(w)
    ensures Slug(w) == FoldAll(w)
  {
    SlugIsScan(w);
    ScanWordThen(w, [], false);
    assert w + [] == w;
  }

  /** A name of two words separated by one space at `i`: the folded words
      joined by "-". */
  lemma TwoWordSlug(name: string, i: nat)
    requires 0 < i < |name| && name[i] == ' '
    requires NoSpace(name[..i]) && NoSpace(name[i + 1..])
    ensures Slug(name) == FoldAll(name[..i]) + "-" + FoldAll(name[i + 1..])
  {
    var w1, rest, w2 := name[..i], name[i..], name[i + 1..];
    assert name == w1 + rest;
    SlugIsScan(name);
    ScanWordThen(w1, rest, false);
    assert rest[0] == ' ' && rest[1..] == w2;
    ScanWordThen(w2, [], true);
    assert w2 + [] == w2;
  }

  /** The link of the summer-programs category of the home page. */
  lemma SummerProgramsSlug(name: string)
    requires name == "Летние программы"
    ensures Slug(name) == "летние-программы"
  {
    var first, second := name[..6], name[7..];
    assert name[6] == ' ';
    assert NoSpace(first) && FoldAll(first) == "летние" by {
      assert first == "Летние";
    }
    assert NoSpace(second) && FoldAll(second) == "программы" by {
      assert second == "программы";
    }
    TwoWordSlug(name, 6);
    assert "летние" + "-" + "программы" == "летние-программы";
  }

  /** The link of the startup-contests category of the home page. */
  lemma StartupsSlug(name: string)
    requires name == "Стартап конкурсы"
    ensures Slug(name) == "стартап-конкурсы"
  {
    var first, second := name[..7], name[8..];
    assert name[7] == ' ';
    assert NoSpace(first) && FoldAll(first) == "стартап" by {
      assert first == "Стартап";
    }
    assert NoSpace(second) && FoldAll(second) == "конкурсы" by {
      assert second == "конкурсы";
    }
    TwoWordSlug(name, 7);
    assert "стартап" + "-" + "конкурсы" == "стартап-конкурсы";
  }

  /** The link of the hackathons category of the home page. */
  lemma HackathonsSlug(name: string)
    requires name == "Хакатоны"
    ensures Slug(name) == "хакатоны"
  {
    assert NoSpace(name);
    OneWordSlug(name);
    assert FoldAll(name) == "хакатоны";
  }

  /** The link of the essay-contests category of the home page. */
  lemma EssaysSlug(name: string)
    requires name == "Конкурсы Эссе"
    ensures Slug(name) == "конкурсы-эссе"
  {
    var first, second := name[..8], name[9..];
    assert name[8] == ' ';
    assert NoSpace(first) && FoldAll(first) == "конкурсы" by {
      assert first == "Конкурсы";
    }
    assert NoSpace(second) && FoldAll(second) == "эссе" by {
      assert second == "Эссе";
    }
    TwoWordSlug(name, 8);
    assert "конкурсы" + "-" + "эссе" == "конкурсы-эссе";
  }

  /** "Ё" is lower-cased before the replacement, so it also ends up as "е". */
  lemma CapitalYoBecomesYe(name: string)
    requires name == "Ёлка Ёж"
    ensures Slug(name) == "елка-еж"
  {
    var first, second := name[..4], name[5..];
    assert name[4] == ' ';
    assert NoSpace(first) && FoldAll(first) == "елка" by {
      assert first == "Ёлка";
    }
    assert NoSpace(second) && FoldAll(second) == "еж" by {
      assert second == "Ёж";
    }
    TwoWordSlug(name, 4);
    assert "елка" + "-" + "еж" == "елка-еж";
  }
}
