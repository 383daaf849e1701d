/**
  The travel questionnaire: four questions asked one per step, the answers
  collected so far, and the handlers that select an option and move between
  steps.

  Only what the logic uses of each question is kept: its id, whether it is
  multiple-choice, and the values of its options. Titles, icons, option
  labels and descriptions are display text.
 */
module QuestionnaireSteps {
  import opened Wrappers

  /** A question of the table. Options are given by their values. */
  datatype Question = Question(id: string, multiple: bool, options: seq<string>)

  /** The questions, in the order they are asked. Only `interests` is multiple-choice. */
  const Questions: seq<Question> := [
    Question("interests", true, ["food", "nature", "history", "shopping", "nightlife", "photography"]),
    Question("travelStyle", false, ["adventure", "relaxation", "cultural"]),
    Question("budget", false, ["budget", "moderate", "luxury"]),
    Question("duration", false, ["short", "week", "extended"])
  ]

  /** The index of the last step. */
  const LastStep: nat := |Questions| - 1

  /**
    The answers collected so far, and the object handed to the completion
    callback: an empty string is an unanswered single-choice question.
   */
  datatype Preferences = Preferences(travelStyle: string, budget: string, duration: string, interests: seq<string>)

  /** The ids of the single-choice questions, whose answer is a string field. */
  predicate IsSingleChoiceId(id: string)
  {
    id == "travelStyle" || id == "budget" || id == "duration"
  }

  /**
    The table has four questions with distinct ids. The first, `interests`,
    is the only multiple-choice one; the other three are the single-choice
    ids. Each question offers at least two distinct option values.
   */
  lemma QuestionTable()
    ensures |Questions| == 4 && LastStep == 3
    ensures Questions[0].id == "interests" && Questions[0].multiple
    ensures forall i :: 1 <= i < |Questions| ==> !Questions[i].multiple && IsSingleChoiceId(Questions[i].id)
    ensures forall i, j :: 0 <= i < j < |Questions| ==> Questions[i].id != Questions[j].id
    ensures forall i :: 0 <= i < |Questions| ==> 2 <= |Questions[i].options| && Distinct(Questions[i].options)
  {
  }

  /** The stored answer of a single-choice question; "" for any other id. */
  function AnswerFor(p: Preferences, id: string): (r: string)
    ensures !IsSingleChoiceId(id) ==> r == ""
  {
    if id == "travelStyle" then p.travelStyle
    else if id == "budget" then p.budget
    else if id == "duration" then p.duration
    else ""
  }

  // ---------------------------------------------------------------------
  // The multiple-choice list
  // ---------------------------------------------------------------------

  /** Every element of `s` other than `v`, in order (`filter(i => i !== v)`). */
  function RemoveAll(s: seq<string>, v: string): (r: seq<string>)
    ensures v !in r
    ensures |r| <= |s|
    ensures forall w :: w != v ==> multiset(r)[w] == multiset(s)[w]
  {
    if s == [] then []
    else
      var rest := RemoveAll(s[1..], v);
      assert s == [s[0]] + s[1..];
      if s[0] == v then rest else [s[0]] + rest
  }

  /** Filtering a concatenation filters each part. */
  lemma {:induction false} RemoveAllAppend(s: seq<string>, t: seq<string>, v: string)
    ensures RemoveAll(s + t, v) == RemoveAll(s, v) + RemoveAll(t, v)
  {
    if s != [] {
      assert (s + t)[1..] == s[1..] + t;
      RemoveAllAppend(s[1..], t, v);
    } else {
      assert s + t == t;
    }
  }

  /** Filtering out a value that does not occur changes nothing. */
  lemma {:induction false} RemoveAllAbsent(s: seq<string>, v: string)
    requires v !in s
    ensures RemoveAll(s, v) == s
  {
    if s != [] {
      assert v !in s[1..];
      RemoveAllAbsent(s[1..], v);
      assert s == [s[0]] + s[1..];
    }
  }

  /**
    The multiple-choice toggle: a value already in the list is removed,
    every occurrence of it; any other value is appended at the end.
   */
  function Toggle(s: seq<string>, v: string): (r: seq<string>)
    ensures v in r <==> v !in s
    ensures v !in s ==> r == s + [v]
    ensures forall w :: w != v ==> multiset(r)[w] == multiset(s)[w]
  {
    if v in s then RemoveAll(s, v) else s + [v]
  }

  /** Toggling a value that is not in the list, twice, gives back the list. */
  lemma ToggleTwiceRestores(s: seq<string>, v: string)
    requires v !in s
    ensures Toggle(Toggle(s, v), v) == s
  {
    RemoveAllAppend(s, [v], v);
    RemoveAllAbsent(s, v);
    assert RemoveAll([v], v) == [];
  }

  /** No value occurs twice. */
  predicate Distinct<T(==)>(s: seq<T>)
  {
    forall i, j :: 0 <= i < j < |s| ==> s[i] != s[j]
  }

  /** Filtering keeps a list free of duplicates. */
  lemma {:induction false} RemoveAllKeepsDistinct(s: seq<string>, v: string)
    requires Distinct(s)
    ensures Distinct(RemoveAll(s, v))
  {
    if s != [] {
      var tail := s[1..];
      assert Distinct(tail) by {
        forall i, j | 0 <= i < j < |tail| ensures tail[i] != tail[j] {
          assert tail[i] == s[i + 1] && tail[j] == s[j + 1];
        }
      }
      RemoveAllKeepsDistinct(tail, v);
      var rest := RemoveAll(tail, v);
      if s[0] != v {
        assert s[0] !in tail by {
          forall k | 0 <= k < |tail| ensures tail[k] != s[0] {
            assert tail[k] == s[k + 1];
          }
        }
        assert multiset(tail)[s[0]] == 0;
        assert multiset(rest)[s[0]] == 0;
        assert s[0] !in rest;
        var r := [s[0]] + rest;
        forall i, j | 0 <= i < j < |r| ensures r[i] != r[j] {
          if i == 0 {
            assert r[j] == rest[j - 1];
          } else {
            assert r[i] == rest[i - 1] && r[j] == rest[j - 1];
          }
        }
      }
    }
  }

  /** The toggle keeps the list of interests free of duplicates. */
  lemma TogglePreservesDistinct(s: seq<string>, v: string)
    requires Distinct(s)
    ensures Distinct(Toggle(s, v))
  {
    if v in s {
      RemoveAllKeepsDistinct(s, v);
    } else {
      var r := s + [v];
      forall i, j | 0 <= i < j < |r| ensures r[i] != r[j] {
        if j == |s| {
          assert r[i] == s[i];
        } else {
          assert r[i] == s[i] && r[j] == s[j];
        }
      }
    }
  }

  // ---------------------------------------------------------------------
  // Selection and validation on values
  // ---------------------------------------------------------------------

  /**
    The answers after the user picks `value` on question `q`: the toggle on
    the list of interests for the multiple-choice question, otherwise the
    field of the question's id (nothing, for an id with no field).
   */
  function Select(q: Question, p: Preferences, value: string): (r: Preferences)
    ensures q.multiple ==> r == p.(interests := Toggle(p.interests, value))
    ensures !q.multiple ==> r.interests == p.interests
    ensures !q.multiple && IsSingleChoiceId(q.id) ==> AnswerFor(r, q.id) == value
    // Only the field of the current question changes.
    ensures !q.multiple ==> forall id :: id != q.id ==> AnswerFor(r, id) == AnswerFor(p, id)
    ensures !q.multiple && !IsSingleChoiceId(q.id) ==> r == p
  {
    if q.multiple then p.(interests := Toggle(p.interests, value))
    else if q.id == "travelStyle" then p.(travelStyle := value)
    else if q.id == "budget" then p.(budget := value)
    else if q.id == "duration" then p.(duration := value)
    else p
  }

  /**
    Whether the current step may be left: the question has an answer, a
    non-empty string or a non-empty list of interests. An unknown id is
    never answered.
   */
  function StepValid(q: Question, p: Preferences): (r: bool)
    ensures q.id == "interests" ==> (r <==> p.interests != [])
    ensures IsSingleChoiceId(q.id) ==> (r <==> AnswerFor(p, q.id) != "")
    ensures q.id != "interests" && !IsSingleChoiceId(q.id) ==> !r
  {
    match q.id
    case "travelStyle" => p.travelStyle != ""
    case "budget" => p.budget != ""
    case "duration" => p.duration != ""
    case "interests" => |p.interests| > 0
    case _ => false
  }

  /**
    Whether the option `value` of question `q` shows as selected: it is in
    the list of interests on the multiple-choice question, and it is the
    stored answer of the question's id otherwise.
   */
  function IsSelected(q: Question, p: Preferences, value: string): (r: bool)
    ensures q.multiple ==> (r <==> value in p.interests)
    ensures !q.multiple ==> (r <==> IsSingleChoiceId(q.id) && value == AnswerFor(p, q.id))
  {
    if q.multiple then value in p.interests
    else
      (q.id == "travelStyle" && p.travelStyle == value) ||
      (q.id == "budget" && p.budget == value) ||
      (q.id == "duration" && p.duration == value)
  }

  /** A single-choice question shows at most one option as selected. */
  lemma AtMostOneSelected(q: Question, p: Preferences, v: string, w: string)
    requires !q.multiple
    requires IsSelected(q, p, v) && IsSelected(q, p, w)
    ensures v == w
  {
    assert v == AnswerFor(p, q.id);
  }

  /**
    On every question of the table, picking an option shows it as selected,
    except on the multiple-choice question when it was already selected
    (the pick then deselects it).
   */
  lemma SelectShowsSelected(i: nat, p: Preferences, value: string)
    requires i < |Questions|
    ensures var q := Questions[i];
      IsSelected(q, Select(q, p, value), value) <==> !(q.multiple && value in p.interests)
  {
    var q := Questions[i];
    if !q.multiple {
      assert IsSingleChoiceId(q.id);
    }
  }

  /**
    On every question of the table, picking a non-empty option that was not
    already selected makes the step valid.
   */
  lemma SelectMakesStepValid(i: nat, p: Preferences, value: string)
    requires i < |Questions|
    requires value != ""
    requires !IsSelected(Questions[i], p, value)
    ensures StepValid(Questions[i], Select(Questions[i], p, value))
  {
    var q := Questions[i];
    if q.multiple {
      assert q.id == "interests";
      assert value in Select(q, p, value).interests;
    } else {
      assert IsSingleChoiceId(q.id);
    }
  }

  // ---------------------------------------------------------------------
  // The component state and its handlers
  // ---------------------------------------------------------------------

  /** The questionnaire's state: the current step and the answers so far. */
  class Questionnaire {
    var currentStep: nat
    var travelStyle: string
    var budget: string
    var duration: string
    var interests: seq<string>

    /** The current step is a question of the table. */
    ghost predicate Valid()
      reads this
    {
      currentStep <= LastStep
    }

    /** The answers as a value. */
    function Answers(): Preferences
      reads this
    {
      Preferences(travelStyle, budget, duration, interests)
    }

    /** The question of the current step. */
    function CurrentQuestion(): Question
      reads this
      requires Valid()
    {
      Questions[currentStep]
    }

    /** The first step, nothing answered. */
    constructor ()
      ensures Valid()
      ensures currentStep == 0
      ensures Answers() == Preferences("", "", "", [])
    {
      currentStep := 0;
      travelStyle, budget, duration := "", "", "";
      interests := [];
    }

    /** The click on an option of the current question. */
    method SelectOption(value: string)
      requires Valid()
      modifies this`travelStyle, this`budget, this`duration, this`interests
      ensures Valid()
      ensures Answers() == Select(CurrentQuestion(), old(Answers()), value)
    {
      var question := Questions[currentStep];
      if question.multiple {
        interests := Toggle(interests, value);
      } else {
        match question.id
        case "travelStyle" => travelStyle := value;
        case "budget" => budget := value;
        case "duration" => duration := value;
        case _ =>
      }
    }

    /**
      The "next" button: moves one step forward, or, on the last step,
      stays and hands the answers over as the completed preferences.
     */
    method Next() returns (completed: Option<Preferences>)
      requires Valid()
      modifies this`currentStep
      ensures Valid()
      ensures old(currentStep) < LastStep ==> currentStep == old(currentStep) + 1 && completed == None
      ensures old(currentStep) == LastStep ==> currentStep == LastStep && completed == Some(Answers())
    {
      if currentStep < |Questions| - 1 {
        currentStep := currentStep + 1;
        completed := None;
      } else {
        completed := Some(Preferences(travelStyle, budget, duration, interests));
      }
    }

    /** The "back" button: moves one step back, except on the first step. */
    method Back()
      requires Valid()
      modifies this`currentStep
      ensures Valid()
      ensures currentStep == if old(currentStep) > 0 then old(currentStep) - 1 else 0
    {
      if currentStep > 0 {
        currentStep := currentStep - 1;
      }
    }
  }
}
