/** backend/app/models/grade.py: one recorded mark of an enrollment, its derived
    percentage and its letter grade. Float columns are modelled as `real`. */
module GradeModel {
  import opened Schema

  const DefaultMaxPoints: real := 100.0

  datatype Letter = A | B | C | D | F

  /** The grade's share of the maximum, in percent; zero when the maximum is not positive. */
  function Percentage(gradeValue: real, maxPoints: real): (p: real)
    ensures maxPoints > 0.0 ==> p * maxPoints == gradeValue * 100.0
    ensures maxPoints <= 0.0 ==> p == 0.0
    ensures maxPoints > 0.0 && 0.0 <= gradeValue <= maxPoints ==> 0.0 <= p <= 100.0
  {
    if maxPoints > 0.0 then
      var ratio := gradeValue / maxPoints;
      assert ratio * maxPoints == gradeValue;
      assert 0.0 <= gradeValue <= maxPoints ==> 0.0 <= ratio <= 1.0;
      ratio * 100.0
    else 0.0
  }

  /** The lowest percentage that earns a letter: the table the if/elif chain encodes. */
  function Threshold(l: Letter): real
    requires l != F
  {
    match l
    case A => 90.0
    case B => 80.0
    case C => 70.0
    case D => 60.0
  }

  /** A = 4 down to F = 0: a better letter has a higher rank. */
  function Rank(l: Letter): nat {
    match l
    case A => 4
    case B => 3
    case C => 2
    case D => 1
    case F => 0
  }

  predicate Earns(p: real, l: Letter) {
    l == F || p >= Threshold(l)
  }

  /** The letter grade of a percentage: the best letter whose threshold it reaches,
      a boundary value going to the higher band. */
  function LetterOf(p: real): (l: Letter)
    ensures Earns(p, l)
    ensures forall k: Letter :: Rank(k) > Rank(l) ==> !Earns(p, k)
    ensures l == A <==> p >= 90.0
    ensures l == B <==> 80.0 <= p < 90.0
    ensures l == C <==> 70.0 <= p < 80.0
    ensures l == D <==> 60.0 <= p < 70.0
    ensures l == F <==> p < 60.0
  {
    if p >= 90.0 then A
    else if p >= 80.0 then B
    else if p >= 70.0 then C
    else if p >= 60.0 then D
    else F
  }

  function LetterName(l: Letter): (s: string)
    ensures |s| == 1
    ensures s == "A" <==> l == A
    ensures s == "B" <==> l == B
    ensures s == "C" <==> l == C
    ensures s == "D" <==> l == D
    ensures s == "F" <==> l == F
  {
    match l
    case A => "A"
    case B => "B"
    case C => "C"
    case D => "D"
    case F => "F"
  }

  function GradePercentage(g: Grade): real {
    Percentage(g.gradeValue, g.maxPoints)
  }

  function LetterGrade(g: Grade): Letter {
    LetterOf(GradePercentage(g))
  }

  /** A higher percentage never gives a worse letter. */
  lemma LetterMonotone(p: real, q: real)
    requires p <= q
    ensures Rank(LetterOf(p)) <= Rank(LetterOf(q))
  {
  }

  /** The four boundaries belong to the band above them. */
  lemma BoundariesGoUp()
    ensures LetterOf(90.0) == A && LetterOf(80.0) == B && LetterOf(70.0) == C && LetterOf(60.0) == D
  {
  }

  /** Without a positive maximum the percentage is 0 and the letter is F, whatever the value. */
  lemma NoMaximumFails(g: Grade)
    requires g.maxPoints <= 0.0
    ensures GradePercentage(g) == 0.0 && LetterGrade(g) == F
  {
  }

  /** The dictionary `to_dict` returns (without `date_recorded`). */
  datatype GradeView = GradeView(
    id: nat,
    enrollmentId: int,
    assignmentName: string,
    gradeValue: real,
    maxPoints: real,
    assignmentType: string,
    percentage: real,
    letterGrade: string)

  /** `Grade.to_dict`: the stored fields, the percentage and the letter it earns. */
  function ToDict(g: Grade): (v: GradeView)
    ensures FromView(v) == g
    ensures v.maxPoints > 0.0 ==> v.percentage * v.maxPoints == v.gradeValue * 100.0
    ensures v.maxPoints <= 0.0 ==> v.percentage == 0.0 && v.letterGrade == "F"
    ensures v.letterGrade == LetterName(LetterOf(v.percentage))
    ensures v.letterGrade == "A" <==> v.percentage >= 90.0
    ensures v.letterGrade == "B" <==> 80.0 <= v.percentage < 90.0
    ensures v.letterGrade == "C" <==> 70.0 <= v.percentage < 80.0
    ensures v.letterGrade == "D" <==> 60.0 <= v.percentage < 70.0
    ensures v.letterGrade == "F" <==> v.percentage < 60.0
  {
    GradeView(g.id, g.enrollmentId, g.assignmentName, g.gradeValue, g.maxPoints, g.assignmentType,
              GradePercentage(g), LetterName(LetterGrade(g)))
  }

  /** `[grade.to_dict() for grade in grades]` */
  function ToDicts(grades: seq<Grade>): (vs: seq<GradeView>)
    ensures |vs| == |grades| && forall i :: 0 <= i < |grades| ==> vs[i] == ToDict(grades[i])
    ensures forall i :: 0 <= i < |vs| ==>
              FromView(vs[i]) == grades[i] && vs[i].letterGrade == LetterName(LetterOf(GradePercentage(grades[i])))
  {
    seq(|grades|, i requires 0 <= i < |grades| => ToDict(grades[i]))
  }

  /** The stored row a view was made from. */
  function FromView(v: GradeView): Grade {
    Grade(v.id, v.enrollmentId, v.assignmentName, v.gradeValue, v.maxPoints, v.assignmentType)
  }
}
