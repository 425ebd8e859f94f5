/** `create_new_list`: the cards missed at least `n` times, written to a
    list one level up. */
module Export {
  import opened Util
  import opened Cards
  import opened FileNames

  /** The cards missed at least `n` times, in session order. */
  function Flagged(cards: seq<Card>, n: int): (r: seq<Card>)
    ensures |r| <= |cards|
  {
    if |cards| == 0 then []
    else Flagged(cards[..|cards| - 1], n)
         + (if cards[|cards| - 1].incorrectCount >= n then [cards[|cards| - 1]] else [])
  }

  /** A card is kept exactly when it is a card of the session missed at
      least `n` times. */
  lemma {:induction false} FlaggedMembers(cards: seq<Card>, n: int, c: Card)
    ensures c in Flagged(cards, n) <==> c in cards && c.incorrectCount >= n
  {
    if |cards| > 0 {
      var init := cards[..|cards| - 1];
      FlaggedMembers(init, n, c);
      assert cards == init + [cards[|cards| - 1]];
    }
  }

  /** As many cards are kept as are missed at least `n` times. */
  lemma {:induction false} FlaggedCount(cards: seq<Card>, n: int)
    ensures |Flagged(cards, n)| == CountIf(cards, (c: Card) => c.incorrectCount >= n)
  {
    if |cards| > 0 {
      FlaggedCount(cards[..|cards| - 1], n);
    }
  }

  /** The filter keeps the session order: filtering two parts one after the
      other is filtering the whole. */
  lemma {:induction false} FlaggedConcat(a: seq<Card>, b: seq<Card>, n: int)
    ensures Flagged(a + b, n) == Flagged(a, n) + Flagged(b, n)
  {
    if |b| > 0 {
      var init := b[..|b| - 1];
      FlaggedConcat(a, init, n);
      assert (a + b)[..|a + b| - 1] == a + init;
    } else {
      assert a + b == a;
    }
  }

  /** Raising the bound filters the filtered list further. */
  lemma {:induction false} FlaggedNested(cards: seq<Card>, n1: int, n2: int)
    requires n1 <= n2
    ensures Flagged(Flagged(cards, n1), n2) == Flagged(cards, n2)
  {
    if |cards| > 0 {
      var init := cards[..|cards| - 1];
      var last := cards[|cards| - 1];
      FlaggedNested(init, n1, n2);
      var tail := if last.incorrectCount >= n1 then [last] else [];
      FlaggedConcat(Flagged(init, n1), tail, n2);
      if last.incorrectCount >= n1 {
        assert ([] + tail)[..0] == [];
        assert Flagged(tail, n2) == Flagged([], n2) + (if last.incorrectCount >= n2 then [last] else []);
      }
    }
  }

  /** A bound of at most zero keeps every card. */
  lemma {:induction false} FlaggedAll(cards: seq<Card>, n: int)
    requires n <= 0
    ensures Flagged(cards, n) == cards
  {
    if |cards| > 0 {
      FlaggedAll(cards[..|cards| - 1], n);
    }
  }

  /** The list `create_new_list` writes: its file name and its rows of
      (source, target) pairs. */
  datatype NewList = NewList(filename: string, rows: seq<(string, string)>)

  /** Nothing was written: no card was missed at least `n` times. */
  datatype ExportError = NoWordsFound(n: int)

  /** `create_new_list` with the bound `n` the user picked and the level
      and base name of the loaded list: the kept cards' pairs, written to
      the next-level name, or an error when no card is kept. */
  function CreateNewList(cards: seq<Card>, n: int, level: nat, baseName: string): (r: Result<NewList, ExportError>)
    ensures r.Err? <==> forall i :: 0 <= i < |cards| ==> cards[i].incorrectCount < n
    ensures r.Err? ==> r.error == NoWordsFound(n)
    ensures r.Ok? ==> |r.value.rows| == CountIf(cards, (c: Card) => c.incorrectCount >= n) > 0
    ensures r.Ok? ==> forall k :: 0 <= k < |r.value.rows| ==>
              exists i :: 0 <= i < |cards| && cards[i].incorrectCount >= n && Pair(cards[i]) == r.value.rows[k]
    ensures r.Ok? ==> r.value.rows == Pairs(Flagged(cards, n)) && r.value.filename == NextLevelName(level, baseName)
  {
    var kept := Flagged(cards, n);
    FlaggedCount(cards, n);
    if kept == [] then
      assert forall i :: 0 <= i < |cards| ==> cards[i].incorrectCount < n by {
        forall i | 0 <= i < |cards|
          ensures cards[i].incorrectCount < n
        {
          FlaggedMembers(cards, n, cards[i]);
        }
      }
      Err(NoWordsFound(n))
    else
      var rows := Pairs(kept);
      assert forall k :: 0 <= k < |rows| ==>
               exists i :: 0 <= i < |cards| && cards[i].incorrectCount >= n && Pair(cards[i]) == rows[k] by {
        forall k | 0 <= k < |rows|
          ensures exists i :: 0 <= i < |cards| && cards[i].incorrectCount >= n && Pair(cards[i]) == rows[k]
        {
          FlaggedMembers(cards, n, kept[k]);
          var i :| 0 <= i < |cards| && cards[i] == kept[k];
          assert Pair(cards[i]) == rows[k];
        }
      }
      assert !forall i :: 0 <= i < |cards| ==> cards[i].incorrectCount < n by {
        FlaggedMembers(cards, n, kept[0]);
      }
      Ok(NewList(NextLevelName(level, baseName), rows))
  }

  /** The exported list, loaded again, is parsed one level up with the same
      base name (while that level still has two digits). */
  lemma ExportRoundTrip(cards: seq<Card>, n: int, level: nat, baseName: string)
    requires level + 1 <= 99 && '/' !in baseName && '\n' !in baseName
    requires CreateNewList(cards, n, level, baseName).Ok?
    ensures ParseFilename(CreateNewList(cards, n, level, baseName).value.filename)
            == Parsed(baseName, ".xlsx", level + 1)
  {
    NextLevelNameRoundTrip(level, baseName);
  }

  /** A session of five cards, missed 0, 1, 2, 0 and 3 times. */
  function ExampleCards(): seq<Card>
  {
    [Card("a", "A", true, 0, false), Card("b", "B", true, 1, true),
     Card("c", "C", true, 2, true), Card("d", "D", true, 0, false),
     Card("e", "E", true, 3, true)]
  }

  /** With n = 2 the filter keeps the third and the fifth card of the
      example, in that order. */
  lemma FlaggedExample()
    ensures Flagged(ExampleCards(), 2) == [ExampleCards()[2], ExampleCards()[4]]
  {
    var cards := ExampleCards();
    assert cards[..1][..0] == [];
    assert Flagged(cards[..1], 2) == [];
    assert cards[..2][..1] == cards[..1];
    assert Flagged(cards[..2], 2) == [];
    assert cards[..3][..2] == cards[..2];
    assert Flagged(cards[..3], 2) == [cards[2]];
    assert cards[..4][..3] == cards[..3];
    assert Flagged(cards[..4], 2) == [cards[2]];
    assert cards[..5] == cards && cards[..4] == cards[..|cards| - 1];
  }

  /** The list one level above level 1 of "words" is "02_words.xlsx". */
  lemma NextLevelNameExample()
    ensures NextLevelName(1, "words") == "02_words.xlsx"
  {
    assert NatToString(2) == [DigitChar(2)] == "2";
    assert Pad2(2) == "02";
  }

  /** Exporting the example with n = 2 from level 1 of "words" writes the
      pairs of the third and the fifth card to "02_words.xlsx". */
  lemma ExportExample()
    ensures CreateNewList(ExampleCards(), 2, 1, "words")
            == Ok(NewList("02_words.xlsx", [("c", "C"), ("e", "E")]))
  {
    var cards := ExampleCards();
    FlaggedExample();
    NextLevelNameExample();
    assert Pairs([cards[2], cards[4]]) == [("c", "C"), ("e", "E")];
  }
}
