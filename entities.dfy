/**
 * The entities the allocator works on: students (objects whose classroom and
 * difficulty rating are written in place) and classrooms (values).
 */
module Entities {
  import opened Collections

  /** The validated ranges of the three ordinal attributes. */
  type AcademicPerformance = x: int | 1 <= x <= 5 witness 1
  type Behaviour = x: int | 1 <= x <= 5 witness 1
  type LearningDifficulty = x: int | 1 <= x <= 3 witness 1

  datatype Classroom = Classroom(classroomId: int, name: string)

  /** A classroom as the classroom store lists it; its student list is not read here. */
  datatype ClassroomDto = ClassroomDto(classroomId: int, name: string)

  /** Converts a listed classroom into the value a student refers to. */
  function DtoToClassroomMap(dto: ClassroomDto): (c: Classroom)
    ensures c.classroomId == dto.classroomId && c.name == dto.name
  {
    Classroom(dto.classroomId, dto.name)
  }

  /**
   * A student. The allocator reads the attributes and writes only
   * `difficultyRating` and `classroom`, so the rest are constants here.
   */
  class Student {
    const studentId: int
    const firstname: string
    const surname: string
    const gender: string
    const academicPerformance: AcademicPerformance
    const behaviour: Behaviour
    const learningDifficulty: LearningDifficulty
    const lockedInClassroom: bool
    var difficultyRating: int
    var classroom: Option<Classroom>

    /** A student as created with `new Student { … }`: the rating starts at its default 0. */
    constructor(studentId: int, firstname: string, surname: string, gender: string,
                academicPerformance: AcademicPerformance, behaviour: Behaviour,
                learningDifficulty: LearningDifficulty, lockedInClassroom: bool,
                classroom: Option<Classroom>)
      ensures this.studentId == studentId && this.gender == gender
      ensures this.firstname == firstname && this.surname == surname
      ensures this.academicPerformance == academicPerformance
      ensures this.behaviour == behaviour && this.learningDifficulty == learningDifficulty
      ensures this.lockedInClassroom == lockedInClassroom
      ensures this.difficultyRating == 0 && this.classroom == classroom
    {
      this.studentId := studentId;
      this.firstname := firstname;
      this.surname := surname;
      this.gender := gender;
      this.academicPerformance := academicPerformance;
      this.behaviour := behaviour;
      this.learningDifficulty := learningDifficulty;
      this.lockedInClassroom := lockedInClassroom;
      this.difficultyRating := 0;
      this.classroom := classroom;
    }
  }
}
