/**
  Checking the answers typed into the division questions
  (`verificarRespostas` and the check button in division/divisao.js).
  Each row holds the text of its quotient and remainder inputs; a row is
  right when both parse, with `parseInt(text, 10)`, to exactly the
  expected numbers.
 */
module QuizGrader {
  import opened Wrappers
  import opened Numbers
  import opened DivisionQuiz

  /** The text of one row's quotient and remainder inputs. */
  datatype Answer = Answer(quotient: string, remainder: string)

  /** `quo === esperado.quociente && res === esperado.resto`; a NaN never
      equals a number. */
  predicate RowCorrect(row: Answer, expected: Question) {
    ParseInt(row.quotient) == Int(expected.quotient)
    && ParseInt(row.remainder) == Int(expected.remainder)
  }

  /** The number of rows marked right. */
  function Count(marks: seq<bool>): (c: nat)
    ensures c <= |marks|
  {
    if |marks| == 0 then 0
    else Count(marks[..|marks| - 1]) + (if marks[|marks| - 1] then 1 else 0)
  }

  /** The positions of the rows marked right. */
  function RightRows(marks: seq<bool>): (s: set<nat>)
    ensures forall i: nat :: i in s <==> i < |marks| && marks[i]
  {
    set i: nat | i < |marks| && marks[i]
  }

  /** The count is the number of distinct positions marked right. */
  lemma {:induction false} CountIsRightRows(marks: seq<bool>)
    ensures Count(marks) == |RightRows(marks)|
  {
    if |marks| > 0 {
      var n := |marks| - 1;
      var front := marks[..n];
      CountIsRightRows(front);
      var all, before := RightRows(marks), RightRows(front);
      assert forall i: nat :: i in all <==> i in before || (i == n && marks[n]);
      if marks[n] {
        assert all == before + {n};
      } else {
        assert all == before;
      }
    }
  }

  /** The right/wrong verdict of every row, in order. */
  function Verdicts(questions: seq<Question>, rows: seq<Answer>): (marks: seq<bool>)
    requires |rows| <= |questions|
    ensures |marks| == |rows|
    ensures forall i :: 0 <= i < |rows| ==> (marks[i] <==> RowCorrect(rows[i], questions[i]))
  {
    seq(|rows|, i requires 0 <= i < |rows| => RowCorrect(rows[i], questions[i]))
  }

  /** `verificarRespostas(questoes)` over the rendered rows: every row is
      marked right or wrong, `correct` counts the right ones and `total`
      is the number of questions. A row past the last question would make
      the source throw, so there are no more rows than questions. */
  method Grade(questions: seq<Question>, rows: seq<Answer>) returns (total: nat, correct: nat, marks: seq<bool>)
    requires |rows| <= |questions|
    ensures total == |questions|
    ensures |marks| == |rows|
    ensures forall i :: 0 <= i < |rows| ==> (marks[i] <==> RowCorrect(rows[i], questions[i]))
    ensures correct == |RightRows(marks)|
    ensures correct <= |rows| <= total
  {
    total := |questions|;
    marks := Verdicts(questions, rows);
    correct := Tally(marks);
  }

  /** The `if (ok) corretas++` loop: the number of rows marked right. */
  method Tally(marks: seq<bool>) returns (correct: nat)
    ensures correct == |RightRows(marks)|
    ensures correct <= |marks|
  {
    correct := 0;
    var i := 0;
    while i < |marks|
      invariant 0 <= i <= |marks|
      invariant correct == Count(marks[..i])
    {
      assert marks[..i + 1][..i] == marks[..i];
      if marks[i] {
        correct := correct + 1;
      }
      i := i + 1;
    }
    assert marks[..i] == marks;
    CountIsRightRows(marks);
  }

  /** The text shown by the check button: nothing when no questions have
      been generated, otherwise `You got C of T correct.` with C the
      number of right rows. */
  method Check(questions: seq<Question>, rows: seq<Answer>) returns (message: Option<string>)
    requires |rows| <= |questions|
    ensures |questions| == 0 <==> message.None?
    ensures message.Some? ==>
      (exists marks: seq<bool> ::
        && |marks| == |rows|
        && (forall i :: 0 <= i < |rows| ==> (marks[i] <==> RowCorrect(rows[i], questions[i])))
        && message.value == "You got " + IntToString(|RightRows(marks)|) + " of " + IntToString(|questions|) + " correct.")
  {
    if |questions| == 0 {
      return None;
    }
    var total, correct, marks := Grade(questions, rows);
    message := Some("You got " + IntToString(correct) + " of " + IntToString(total) + " correct.");
  }

  /** `parseInt` reads the decimal text of `x` back as `x`, after any
      leading white space and before any text that does not start with a
      digit: `" 7 "`, `"7abc"` and `"7e0"` all read as 7. */
  lemma ReadsBack(x: int, ws: string, tail: string)
    requires forall i :: 0 <= i < |ws| ==> IsJsSpace(ws[i])
    requires |tail| == 0 || !IsDigit(tail[0])
    ensures ParseInt(ws + IntToString(x) + tail) == Int(x)
  {
    var text := IntToString(x);
    Associative(ws, text, tail);
    ParseIntOfToString(x, tail);
    LeadingSpaceIgnored(ws, text + tail);
  }

  /** Field values holding the expected numbers in decimal make a right
      row, also when white space comes first or a non-digit tail (such as
      the exponent of `7e0`) follows. */
  lemma DecimalAnswerCorrect(expected: Question, ws: string, tail: string)
    requires forall i :: 0 <= i < |ws| ==> IsJsSpace(ws[i])
    requires |tail| == 0 || !IsDigit(tail[0])
    ensures RowCorrect(Answer(ws + IntToString(expected.quotient) + tail,
                              ws + IntToString(expected.remainder) + tail), expected)
  {
    ReadsBack(expected.quotient, ws, tail);
    ReadsBack(expected.remainder, ws, tail);
  }

  /** A blank or non-numeric field makes the row wrong. */
  lemma UnparsedAnswerWrong(row: Answer, expected: Question)
    requires ParseInt(row.quotient) == NaN || ParseInt(row.remainder) == NaN
    ensures !RowCorrect(row, expected)
  {
  }

  /** Answering every question with its decimal quotient and remainder
      scores full marks. */
  lemma AllDecimalFullMarks(questions: seq<Question>, rows: seq<Answer>, marks: seq<bool>)
    requires |rows| == |questions| == |marks|
    requires forall i :: 0 <= i < |rows| ==>
      rows[i] == Answer(IntToString(questions[i].quotient), IntToString(questions[i].remainder))
    requires forall i :: 0 <= i < |rows| ==> (marks[i] <==> RowCorrect(rows[i], questions[i]))
    ensures |RightRows(marks)| == |questions|
  {
    forall i | 0 <= i < |rows|
      ensures marks[i]
    {
      DecimalRowCorrect(questions[i]);
    }
    AllMarked(marks);
  }

  lemma DecimalRowCorrect(q: Question)
    ensures RowCorrect(Answer(IntToString(q.quotient), IntToString(q.remainder)), q)
  {
    ReadsExact(q.quotient);
    ReadsExact(q.remainder);
  }

  lemma ReadsExact(x: int)
    ensures ParseInt(IntToString(x)) == Int(x)
  {
    var text := IntToString(x);
    ParseIntOfToString(x, "");
    assert text + "" == text;
  }

  lemma AllMarked(marks: seq<bool>)
    requires forall i :: 0 <= i < |marks| ==> marks[i]
    ensures |RightRows(marks)| == |marks|
  {
    CountIsRightRows(marks);
    AllMarkedCount(marks);
  }

  lemma {:induction false} AllMarkedCount(marks: seq<bool>)
    requires forall i :: 0 <= i < |marks| ==> marks[i]
    ensures Count(marks) == |marks|
  {
    if |marks| > 0 {
      AllMarkedCount(marks[..|marks| - 1]);
    }
  }
}
