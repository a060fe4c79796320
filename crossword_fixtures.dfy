/** The second puzzle bundled with the crossword page
    (resources/js/Pages/Crossword/crosswordData.js:45-85), without the clue
    texts, and what the model says about it. */
module CrosswordFixtures {
  import opened Wrappers
  import opened CrosswordClues
  import opened CrosswordGrid
  import opened CrosswordCheck

  /** `generalKnowledgePuzzle2`: a 12 x 8 grid with 34 clues. */
  function SecondPuzzle(): seq<RawClue> {
    [
      RawClue(Some(1), "across", Some(0), Some(0), Some(8), Some("SEYAHATNAME")),
      RawClue(Some(2), "across", Some(0), Some(9), Some(3), Some("HAN")),
      RawClue(Some(3), "across", Some(1), Some(0), Some(5), Some("ANTRE")),
      RawClue(Some(4), "across", Some(1), Some(6), Some(6), Some("RİVAYET")),
      RawClue(Some(5), "across", Some(2), Some(0), Some(3), Some("TEL")),
      RawClue(Some(6), "across", Some(2), Some(4), Some(5), Some("YAZIT")),
      RawClue(Some(7), "across", Some(3), Some(0), Some(4), Some("FİDE")),
      RawClue(Some(8), "across", Some(3), Some(5), Some(7), Some("KERAMET")),
      RawClue(Some(9), "across", Some(4), Some(0), Some(6), Some("MECALSİZ")),
      RawClue(Some(10), "across", Some(4), Some(7), Some(5), Some("DİKEY")),
      RawClue(Some(11), "across", Some(5), Some(2), Some(8), Some("OBJEKTİF")),
      RawClue(Some(12), "across", Some(6), Some(0), Some(7), Some("FAYTONCU")),
      RawClue(Some(13), "across", Some(6), Some(8), Some(4), Some("RUAM")),
      RawClue(Some(14), "across", Some(7), Some(0), Some(6), Some("NAMZET")),
      RawClue(Some(15), "across", Some(7), Some(7), Some(5), Some("KABİL")),
      RawClue(Some(16), "down", Some(0), Some(1), Some(5), Some("YARMA")),
      RawClue(Some(17), "down", Some(0), Some(2), Some(8), Some("HEYELAN")),
      RawClue(Some(18), "down", Some(6), Some(1), Some(2), Some("AR")),
      RawClue(Some(19), "down", Some(0), Some(3), Some(2), Some("NE")),
      RawClue(Some(20), "down", Some(0), Some(4), Some(3), Some("ZAM")),
      RawClue(Some(21), "down", Some(0), Some(6), Some(4), Some("İHYA")),
      RawClue(Some(22), "down", Some(0), Some(7), Some(6), Some("TEORİK")),
      RawClue(Some(23), "down", Some(0), Some(10), Some(5), Some("NİCEL")),
      RawClue(Some(24), "down", Some(0), Some(11), Some(2), Some("-ME")),
      RawClue(Some(25), "down", Some(2), Some(5), Some(6), Some("ZEKİCE")),
      RawClue(Some(26), "down", Some(1), Some(8), Some(7), Some("YETENEK")),
      RawClue(Some(27), "down", Some(6), Some(10), Some(2), Some("CU")),
      RawClue(Some(28), "down", Some(3), Some(11), Some(5), Some("TİRAN")),
      RawClue(Some(29), "down", Some(5), Some(6), Some(2), Some("FİİL")),
      RawClue(Some(30), "down", Some(3), Some(3), Some(5), Some("ALTES")),
      RawClue(Some(31), "down", Some(4), Some(4), Some(4), Some("ZULA")),
      RawClue(Some(32), "down", Some(0), Some(0), Some(8), Some("SAFSATACI")),
      RawClue(Some(33), "down", Some(0), Some(9), Some(2), Some("HA")),
      RawClue(Some(34), "down", Some(3), Some(9), Some(5), Some("TALİM"))
    ]
  }

  /** Clue 17 of the second puzzle (HEYELAN, 7 letters for a length of 8)
      fails the format check, so loading the puzzle reports a problem. */
  lemma SecondPuzzleHasBadClue()
    ensures Validate(SecondPuzzle()[16]).None? && InvalidFormatCount(SecondPuzzle()) > 0
  {
    var clues := SecondPuzzle();
    assert Validate(clues[16]).None?;
  }

  /** Cell (7, 2) of the second puzzle's grid is active through clue 14
      (NAMZET). As written, revealing that grid reaches (7, 2) as the eighth
      cell of clue 17, where its solution has no letter. */
  lemma SecondPuzzleRevealReadsPastSolution()
    ensures RevealReadsPastSolution(InitGrid(SecondPuzzle(), 12, 8), SecondPuzzle()[16])
  {
    var clues := SecondPuzzle();
    var bad := clues[16];
    assert CheckedAsWritten(bad) && |bad.solution.value| == 7 && bad.length == Some(8);
    assert Covers(clues[13], 12, 8, 7, 2);
    InitCellActive(clues, 12, 8, 7, 2);
    var g: Grid := InitGrid(clues, 12, 8);
    assert g[7][2].isActive;
    assert RawCellOf(bad, 7) == Pos(7, 2);
  }

  /** Only a clue starting at (0, 0) covers (0, 0). */
  lemma CoversOrigin(raw: RawClue, w: int, h: int)
    ensures Covers(raw, w, h, 0, 0) ==> raw.row == Some(0) && raw.col == Some(0)
  {
  }

  /** Cell (0, 0) of the second puzzle's grid is not active: the only clues
      starting there, 1 (SEYAHATNAME, 11 letters for a length of 8) and 32
      (SAFSATACI, 9 letters for a length of 8), both fail the format check.
      As written, the check loop of clue 1 breaks at that first cell, so the
      word is counted wrong whatever the player types. */
  lemma SecondPuzzleFirstCellInactive()
    ensures CheckedAsWritten(SecondPuzzle()[0]) && RawCellOf(SecondPuzzle()[0], 0) == Pos(0, 0)
    ensures !InitGrid(SecondPuzzle(), 12, 8)[0][0].isActive
  {
    var clues := SecondPuzzle();
    forall k | 0 <= k < |clues|
      ensures !Covers(clues[k], 12, 8, 0, 0)
    {
      if k == 0 || k == 31 {
        assert Validate(clues[k]).None?;
      } else {
        assert clues[k].row != Some(0) || clues[k].col != Some(0);
        CoversOrigin(clues[k], 12, 8);
      }
    }
    InitCellActive(clues, 12, 8, 0, 0);
  }

  /** With the corrected guard, revealing the second puzzle skips clue 17. */
  lemma SecondPuzzleRevealCorrected()
    ensures !Processed(SecondPuzzle()[16])
    ensures forall k :: 0 <= k < |SecondPuzzle()| && Processed(SecondPuzzle()[k]) ==>
              !RevealReadsPastSolution(InitGrid(SecondPuzzle(), 12, 8), SecondPuzzle()[k])
  {
    forall k | 0 <= k < |SecondPuzzle()| && Processed(SecondPuzzle()[k])
      ensures !RevealReadsPastSolution(InitGrid(SecondPuzzle(), 12, 8), SecondPuzzle()[k])
    {
      ProcessedNeverReadsPast(InitGrid(SecondPuzzle(), 12, 8), SecondPuzzle()[k]);
    }
  }
}
