/** The security-questions panel: five slots, each with a question chosen from
    its own fixed menu and a free-text answer. */
module SecurityQuestions {

  const SlotCount := 5

  /** The menu of each slot, in display order. */
  const QuestionsList: seq<seq<string>> := [
    [
      "What was your childhood nickname?",
      "What is the name of your first pet?",
      "What was your favorite subject in school?",
      "What was the name of your elementary school?",
      "What was your dream job as a child?"
    ],
    [
      "What was the name of your first stuffed animal?",
      "What was the first concert you attended?",
      "What is your favorite movie of all time?",
      "What is the middle name of your oldest sibling?",
      "What is your mother\U{2019}s maiden name?"
    ],
    [
      "What city were you born in?",
      "What was the name of your first teacher?",
      "What is your favorite book?",
      "What is the name of the street you grew up on?",
      "What is your favorite sport?"
    ],
    [
      "What was the name of your childhood best friend?",
      "What is your father\U{2019}s middle name?",
      "What is your favorite holiday destination?",
      "What was your high school mascot?",
      "What was the make of your first car?"
    ],
    [
      "What is the name of your favorite childhood TV show?",
      "What food do you hate the most?",
      "Who was your first celebrity crush?",
      "What was your first phone number?",
      "What is your favorite ice cream flavor?"
    ]
  ]

  /** The questions slot `i` offers: exactly its row of the table, five of them. */
  function Menu(i: nat): (m: seq<string>)
    requires i < SlotCount
    ensures |m| == 5
    ensures forall q :: q in m ==> q != ""
  {
    QuestionsList[i]
  }

  /** The chosen question and the answer of every slot. */
  datatype Panel = Panel(selectedQuestions: seq<string>, answers: seq<string>)

  predicate WellFormed(p: Panel) {
    |p.selectedQuestions| == SlotCount && |p.answers| == SlotCount
  }

  /** Both arrays start as five empty strings. */
  function InitialPanel(): (p: Panel)
    ensures WellFormed(p)
    ensures forall i :: 0 <= i < SlotCount ==> p.selectedQuestions[i] == "" && p.answers[i] == ""
  {
    Panel(seq(SlotCount, _ => ""), seq(SlotCount, _ => ""))
  }

  /** Choosing a question in slot `i`: that slot takes it, every other slot
      keeps its question, and no answer changes. */
  function ChangeQuestion(p: Panel, i: nat, value: string): (r: Panel)
    requires WellFormed(p) && i < SlotCount
    ensures WellFormed(r)
    ensures r.selectedQuestions[i] == value
    ensures forall j :: 0 <= j < SlotCount && j != i ==> r.selectedQuestions[j] == p.selectedQuestions[j]
    ensures r.answers == p.answers
  {
    p.(selectedQuestions := p.selectedQuestions[i := value])
  }

  /** Typing an answer in slot `i`: that slot takes it, every other answer
      stays, and no chosen question changes. */
  function ChangeAnswer(p: Panel, i: nat, value: string): (r: Panel)
    requires WellFormed(p) && i < SlotCount
    ensures WellFormed(r)
    ensures r.answers[i] == value
    ensures forall j :: 0 <= j < SlotCount && j != i ==> r.answers[j] == p.answers[j]
    ensures r.selectedQuestions == p.selectedQuestions
  {
    p.(answers := p.answers[i := value])
  }

  /** Questions and answers are independent: changing one then the other gives
      the same panel in either order, and a later change of the same slot
      overrides an earlier one. */
  lemma ChangesCommute(p: Panel, i: nat, j: nat, q: string, a: string, q2: string)
    requires WellFormed(p) && i < SlotCount && j < SlotCount
    ensures ChangeAnswer(ChangeQuestion(p, i, q), j, a) == ChangeQuestion(ChangeAnswer(p, j, a), i, q)
    ensures ChangeQuestion(ChangeQuestion(p, i, q), i, q2) == ChangeQuestion(p, i, q2)
  {
  }

  /** No question appears in two menus. */
  lemma MenusDisjoint(i: nat, j: nat, q: string)
    requires i < SlotCount && j < SlotCount && i != j
    ensures !(q in Menu(i) && q in Menu(j))
  {
    if i < j {
      EarlierMenuApart(i, j, q);
    } else {
      EarlierMenuApart(j, i, q);
    }
  }

  lemma EarlierMenuApart(i: nat, j: nat, q: string)
    requires i < j < SlotCount
    ensures !(q in Menu(i) && q in Menu(j))
  {
  }

  /** Each slot chose one of its own menu's questions. */
  predicate ChosenFromMenus(p: Panel)
    requires WellFormed(p)
  {
    forall i :: 0 <= i < SlotCount ==> p.selectedQuestions[i] in Menu(i)
  }

  /** A panel filled from the menus never asks the same question twice. */
  lemma ChosenQuestionsDistinct(p: Panel)
    requires WellFormed(p) && ChosenFromMenus(p)
    ensures forall i, j :: 0 <= i < j < SlotCount ==> p.selectedQuestions[i] != p.selectedQuestions[j]
  {
    forall i, j | 0 <= i < j < SlotCount
      ensures p.selectedQuestions[i] != p.selectedQuestions[j]
    {
      MenusDisjoint(i, j, p.selectedQuestions[i]);
    }
  }

  /** A fresh panel has chosen nothing yet: the empty string is on no menu. */
  lemma InitialNotChosen()
    ensures forall i :: 0 <= i < SlotCount ==> InitialPanel().selectedQuestions[i] !in Menu(i)
  {
  }
}
