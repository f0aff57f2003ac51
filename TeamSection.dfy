/** The faculty roster: a subject switch over the loaded faculty, and on narrow
    screens a one-card carousel over the current subject's members.

    Switching subject runs in timed phases. The click starts the fade and
    resets the carousel index at once; a first timer (300 ms) then swaps the
    subject and schedules a second one (50 ms) that ends the fade. The timers
    are events here: each click that passes the guard queues one subject swap,
    each swap queues one fade end, and they fire in the order queued. While a
    swap is pending the previous subject's team is still on screen and its
    carousel controls still respond (the fade only lowers opacity). */
module TeamSection {
  import opened Common
  import opened Records

  const DefaultSubject := "english"

  /** The subject tabs, in display order. */
  const Subjects: seq<string> := ["founder", "english", "math-leopard", "science-zhenlin"]

  function OfSubject(subject: string): Faculty -> bool
  {
    (m: Faculty) => m.subject == subject
  }

  /** `currentTeam`: the faculty members of the selected subject. */
  function CurrentTeam(faculty: seq<Faculty>, subject: string): (r: seq<Faculty>)
    ensures forall m :: m in r <==> m in faculty && m.subject == subject
  {
    forall m | m in faculty && m.subject == subject ensures m in Filter(OfSubject(subject), faculty) {
      FilterKeeps(OfSubject(subject), faculty, m);
    }
    Filter(OfSubject(subject), faculty)
  }

  /** The team keeps the load order of the faculty list. */
  lemma CurrentTeamInLoadOrder(a: seq<Faculty>, b: seq<Faculty>, subject: string)
    ensures CurrentTeam(a + b, subject) == CurrentTeam(a, subject) + CurrentTeam(b, subject)
  {
    FilterAppend(OfSubject(subject), a, b);
  }

  /** The card (which reads `currentTeam[currentIndex]`) is rendered only for a
      non-empty team; the previous/next buttons and the dots only for a team
      of two or more, so the carousel never divides by zero. */
  function CardShown(teamSize: nat): bool { teamSize > 0 }
  function ControlsShown(teamSize: nat): (shown: bool)
    ensures shown ==> CardShown(teamSize)
  {
    teamSize > 1
  }

  class FacultyRoster {
    var faculty: seq<Faculty>
    var loading: bool
    var selectedSubject: string
    var currentIndex: nat
    var isTransitioning: bool
    /** Subjects of the swap timers not yet fired, oldest first. */
    var pendingSwaps: seq<string>
    /** Fade-end timers not yet fired. */
    var pendingFades: nat

    function Team(): seq<Faculty>
      reads this
    {
      CurrentTeam(faculty, selectedSubject)
    }

    /** The card reads a real member whenever it is rendered. */
    predicate IndexInRange()
      reads this
    {
      CardShown(|Team()|) ==> currentIndex < |Team()|
    }

    ghost predicate Valid()
      reads this
    {
      && IndexInRange()
      && (loading ==> faculty == [] && currentIndex == 0 && pendingSwaps == []
                      && pendingFades == 0 && !isTransitioning)
    }

    constructor ()
      ensures Valid()
      ensures faculty == [] && loading && selectedSubject == DefaultSubject
      ensures currentIndex == 0 && !isTransitioning
      ensures pendingSwaps == [] && pendingFades == 0
    {
      faculty := [];
      loading := true;
      selectedSubject := DefaultSubject;
      currentIndex := 0;
      isTransitioning := false;
      pendingSwaps := [];
      pendingFades := 0;
    }

    /** The one read on mount: the faculty list is replaced only when the read
        succeeded, and loading is cleared either way. */
    method Load(result: Option<seq<Faculty>>)
      requires Valid() && loading
      modifies this
      ensures Valid() && !loading
      ensures faculty == (if result.Some? then result.value else old(faculty))
      ensures selectedSubject == old(selectedSubject) && currentIndex == old(currentIndex)
      ensures isTransitioning == old(isTransitioning)
      ensures pendingSwaps == old(pendingSwaps) && pendingFades == old(pendingFades)
    {
      if result.Some? {
        faculty := result.value;
      }
      loading := false;
    }

    /** A click on a subject tab (one per entry of Subjects, rendered once
        loaded). A click on the subject currently selected does nothing; any
        other click starts the fade, resets the index and queues the swap. */
    method SubjectChange(key: string)
      requires Valid() && !loading && key in Subjects
      modifies this
      ensures Valid()
      ensures key == old(selectedSubject) ==>
                && currentIndex == old(currentIndex) && isTransitioning == old(isTransitioning)
                && pendingSwaps == old(pendingSwaps)
      ensures key != old(selectedSubject) ==>
                && currentIndex == 0 && isTransitioning
                && pendingSwaps == old(pendingSwaps) + [key]
      ensures faculty == old(faculty) && loading == old(loading)
      ensures selectedSubject == old(selectedSubject) && pendingFades == old(pendingFades)
    {
      if key == selectedSubject {
        return;
      }
      isTransitioning := true;
      currentIndex := 0;
      pendingSwaps := pendingSwaps + [key];
    }

    /** The first timer as the component writes it: the subject is swapped but
        the index, which may have moved within the old team since the click,
        is kept. The roster can be left pointing past the end of the new team
        (see PendingWindowCounterexample). */
    method SwapTimerAsWritten()
      requires Valid() && pendingSwaps != []
      modifies this
      ensures selectedSubject == old(pendingSwaps)[0]
      ensures pendingSwaps == old(pendingSwaps)[1..] && pendingFades == old(pendingFades) + 1
      ensures currentIndex == old(currentIndex) && isTransitioning == old(isTransitioning)
      ensures faculty == old(faculty) && loading == old(loading)
    {
      selectedSubject := pendingSwaps[0];
      pendingSwaps := pendingSwaps[1..];
      pendingFades := pendingFades + 1;
    }

    /** The first timer with the index reset where the subject is swapped, so
        the carousel starts at the first member of the new team. */
    method SwapTimer()
      requires Valid() && pendingSwaps != []
      modifies this
      ensures Valid()
      ensures selectedSubject == old(pendingSwaps)[0] && currentIndex == 0
      ensures pendingSwaps == old(pendingSwaps)[1..] && pendingFades == old(pendingFades) + 1
      ensures isTransitioning == old(isTransitioning)
      ensures faculty == old(faculty) && loading == old(loading)
    {
      selectedSubject := pendingSwaps[0];
      currentIndex := 0;
      pendingSwaps := pendingSwaps[1..];
      pendingFades := pendingFades + 1;
    }

    /** The second timer: the fade ends. */
    method FadeTimer()
      requires Valid() && pendingFades > 0
      modifies this
      ensures Valid()
      ensures !isTransitioning && pendingFades == old(pendingFades) - 1
      ensures faculty == old(faculty) && loading == old(loading)
      ensures selectedSubject == old(selectedSubject) && currentIndex == old(currentIndex)
      ensures pendingSwaps == old(pendingSwaps)
    {
      isTransitioning := false;
      pendingFades := pendingFades - 1;
    }

    /** The next-instructor button. */
    method Next()
      requires Valid() && !loading && ControlsShown(|Team()|)
      modifies this
      ensures Valid()
      ensures currentIndex == Succ(old(currentIndex), old(|Team()|))
      ensures faculty == old(faculty) && loading == old(loading)
      ensures selectedSubject == old(selectedSubject) && isTransitioning == old(isTransitioning)
      ensures pendingSwaps == old(pendingSwaps) && pendingFades == old(pendingFades)
    {
      currentIndex := Succ(currentIndex, |Team()|);
    }

    /** The previous-instructor button. */
    method Prev()
      requires Valid() && !loading && ControlsShown(|Team()|)
      modifies this
      ensures Valid()
      ensures currentIndex == Pred(old(currentIndex), old(|Team()|))
      ensures faculty == old(faculty) && loading == old(loading)
      ensures selectedSubject == old(selectedSubject) && isTransitioning == old(isTransitioning)
      ensures pendingSwaps == old(pendingSwaps) && pendingFades == old(pendingFades)
    {
      currentIndex := Pred(currentIndex, |Team()|);
    }

    /** A click on the dot of position `k`; one dot is rendered per member. */
    method SelectDot(k: nat)
      requires Valid() && !loading && ControlsShown(|Team()|) && k < |Team()|
      modifies this
      ensures Valid()
      ensures currentIndex == k
      ensures faculty == old(faculty) && loading == old(loading)
      ensures selectedSubject == old(selectedSubject) && isTransitioning == old(isTransitioning)
      ensures pendingSwaps == old(pendingSwaps) && pendingFades == old(pendingFades)
    {
      currentIndex := k;
    }

    /** The member on the card, read without changing anything. */
    method CardMember() returns (m: Faculty)
      requires Valid() && !loading && CardShown(|Team()|)
      ensures m in faculty && m.subject == selectedSubject
      ensures m == Team()[currentIndex]
    {
      m := Team()[currentIndex];
    }
  }

  /** The teams of a faculty list of two English teachers and one mathematics
      teacher. */
  lemma SampleTeams(a: Faculty, b: Faculty, m: Faculty)
    requires a.subject == "english" && b.subject == "english" && m.subject == "math-leopard"
    ensures CurrentTeam([a, b, m], "english") == [a, b]
    ensures CurrentTeam([a, b, m], "math-leopard") == [m]
  {
    var english, math := OfSubject("english"), OfSubject("math-leopard");
    assert [a, b, m][1..] == [b, m] && [b, m][1..] == [m] && [m][1..] == [];
    assert Filter(english, [m]) == [];
    assert Filter(english, [b, m]) == [b];
    assert Filter(english, [a, b, m]) == [a, b];
    assert Filter(math, [m]) == [m];
    assert Filter(math, [b, m]) == [m];
    assert Filter(math, [a, b, m]) == [m];
  }

  /** Two English teachers and one mathematics teacher. On the English tab the
      user picks mathematics and, within the 300 ms before the swap, presses
      next: the index moves to 1 inside the English team. The swap as written
      then shows the one-member mathematics team with index 1, and the card
      reads `currentTeam[1]`, which does not exist. */
  method PendingWindowCounterexample() returns (roster: FacultyRoster)
    ensures CardShown(|roster.Team()|) && !roster.IndexInRange()
  {
    var a := Faculty("a", "A", "", "", "english", "", "");
    var b := Faculty("b", "B", "", "", "english", "", "");
    var m := Faculty("m", "M", "", "", "math-leopard", "", "");
    roster := new FacultyRoster();
    var loaded := [a, b, m];
    SampleTeams(a, b, m);
    roster.Load(Some(loaded));
    assert roster.Team() == [a, b];
    assert Subjects[2] == "math-leopard";
    roster.SubjectChange("math-leopard");
    roster.Next();
    roster.SwapTimerAsWritten();
    assert roster.Team() == [m];
  }
}
