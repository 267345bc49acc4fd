/** The question bank: a fixed, ordered, non-empty list of true/false
    questions, and the list lookup that reads one of them. */
module Questions {
  import opened KotlinInt

  /** One trivia prompt with its ground-truth answer. */
  datatype Question = Question(text: string, answer: bool)

  /** A Kotlin `List<Question>` the navigation arithmetic can work with:
      non-empty (its size is a divisor) and no longer than `Int.MAX_VALUE`. */
  type Bank = b: seq<Question> | 0 < |b| <= MAX_VALUE
    witness [Question("", false)]

  /** The six questions the activity is built with, in display order. */
  const GeoQuestions: seq<Question> := [
    Question("Canberra is the capital of Australia.", true),
    Question("The Pacific Ocean is larger than the Atlantic Ocean.", true),
    Question("The Suez Canal connects the Red Sea and the Indian Ocean.", false),
    Question("The source of the Nile River is in Egypt.", false),
    Question("The Amazon River is the longest river in the Americas.", true),
    Question("Lake Baikal is the world's oldest and deepest freshwater lake.", true)
  ]

  /** The built-in questions as a bank. */
  const GeoBank: Bank := assert |GeoQuestions| == 6; GeoQuestions

  /** `list.size` as a Kotlin Int. */
  function Size(bank: Bank): (n: Int32)
    ensures 0 < n && n == |bank|
  {
    |bank|
  }

  /** `list.lastIndex`: the largest index that reads an element. */
  function LastIndex(bank: Bank): (r: Int32)
    ensures 0 <= r < |bank| && r + 1 == |bank|
  {
    |bank| - 1
  }

  /** The outcome of `list[index]`: the element, or the
      IndexOutOfBoundsException the JVM throws. */
  datatype Lookup = Found(question: Question) | IndexOutOfBounds(index: int)

  /** `list[index]` for every Int index. */
  function Get(bank: Bank, index: Int32): (r: Lookup)
    ensures r.Found? <==> 0 <= index < |bank|
    ensures r.Found? ==> r.question in bank && r.question == bank[index]
    ensures r.IndexOutOfBounds? ==> r.index == index
  {
    if 0 <= index < |bank| then Found(bank[index]) else IndexOutOfBounds(index)
  }

  /** The built-in bank has six entries, so its first and last indices read
      questions and the size is the modulus the cursor wraps at. */
  lemma GeoBankShape()
    ensures Size(GeoBank) == 6 && LastIndex(GeoBank) == 5
    ensures Get(GeoBank, 0).Found? && Get(GeoBank, 5).Found?
    ensures Get(GeoBank, 6).IndexOutOfBounds? && Get(GeoBank, -1).IndexOutOfBounds?
    ensures [GeoBank[0].answer, GeoBank[1].answer, GeoBank[2].answer,
             GeoBank[3].answer, GeoBank[4].answer, GeoBank[5].answer]
         == [true, true, false, false, true, true]
  {
  }
}
