/** A worked example of the builder and the writer: a course page listing
    two homework pages, each listing one submission page. */
module Scenario {
  import opened TreeSpec

  /** The portal of the example; every other page lists nothing. */
  function CoursePortal(url: string): Result<seq<Listing>, string>
  {
    if url == "/cs101" then Ok([Listing("HW1", "/cs101/hw1"), Listing("HW2", "/cs101/hw2")])
    else if url == "/cs101/hw1" then Ok([Listing("Submission", "/cs101/hw1/sub")])
    else if url == "/cs101/hw2" then Ok([Listing("Submission", "/cs101/hw2/sub")])
    else Ok([])
  }

  function AcceptAll(r: Record): Option<string> { None }

  function Sub1(): Tree { Tree("Submission", "/cs101/hw1/sub", []) }
  function Sub2(): Tree { Tree("Submission", "/cs101/hw2/sub", []) }
  function Hw1(): Tree { Tree("HW1", "/cs101/hw1", [Sub1()]) }
  function Hw2(): Tree { Tree("HW2", "/cs101/hw2", [Sub2()]) }
  function Course(): Tree { Tree("CS101", "/cs101", [Hw1(), Hw2()]) }

  /** Building from a childless CS101 root with depth 2 fetches five pages,
      one per node, and yields the five-node course tree. */
  lemma CourseBuild()
    ensures Build(CoursePortal, "/cs101", Tree("CS101", "/cs101", []), 2) == Built(Course(), None, 5)
  {
    assert Build(CoursePortal, Sub1().url, Sub1(), 0) == Built(Sub1(), None, 1);
    assert Build(CoursePortal, Sub2().url, Sub2(), 0) == Built(Sub2(), None, 1);
    var hw1 := Tree("HW1", "/cs101/hw1", []);
    var hw2 := Tree("HW2", "/cs101/hw2", []);
    assert Build(CoursePortal, hw1.url, hw1, 1) == Built(Hw1(), None, 2);
    assert Build(CoursePortal, hw2.url, hw2, 1) == Built(Hw2(), None, 2);
    assert BuildChildren(CoursePortal, [hw1, hw2], 1, 1) == BuiltList([Hw1()], None, 2);
    assert BuildChildren(CoursePortal, [hw1, hw2], 2, 1) == BuiltList([Hw1(), Hw2()], None, 4);
  }

  /** The full pre-order of the course tree: each homework is followed by
      its submission. */
  lemma CoursePreOrder()
    ensures PreOrder(Course(), 2) ==
              [Record("CS101", "/cs101"), Record("HW1", "/cs101/hw1"), Record("Submission", "/cs101/hw1/sub"),
               Record("HW2", "/cs101/hw2"), Record("Submission", "/cs101/hw2/sub")]
  {
    assert PreOrder(Hw1(), 1) == [Record("HW1", "/cs101/hw1"), Record("Submission", "/cs101/hw1/sub")];
    assert PreOrder(Hw2(), 1) == [Record("HW2", "/cs101/hw2"), Record("Submission", "/cs101/hw2/sub")];
  }

  /** Saving the course tree with depth 1 writes three records: the course
      and its two homework pages. */
  lemma CourseSave()
    ensures Emit(AcceptAll, Course(), 1) ==
              Emitted([Record("CS101", "/cs101"), Record("HW1", "/cs101/hw1"), Record("HW2", "/cs101/hw2")], None)
  {
    assert Emit(AcceptAll, Hw1(), 0) == Emitted([Record("HW1", "/cs101/hw1")], None);
    assert Emit(AcceptAll, Hw2(), 0) == Emitted([Record("HW2", "/cs101/hw2")], None);
  }
}
