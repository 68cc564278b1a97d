/** `PersonQueue`: a first-in first-out queue of persons kept in a list; enqueuing appends at
    the back, dequeuing takes from the front and fails on an empty queue. */
module PersonQueues {
  import opened Text
  import opened People

  /** The outcome of `Dequeue`: the front person, or the "Queue is empty." failure. */
  datatype DequeueResult = Dequeued(person: Person) | QueueEmpty

  /** The texts of the persons, in queue order. */
  function PersonTexts(ps: seq<Person>): (r: seq<string>)
    reads ps
    ensures |r| == |ps|
    ensures forall i :: 0 <= i < |ps| ==> r[i] == ps[i].ToString()
  {
    if ps == [] then [] else PersonTexts(ps[..|ps| - 1]) + [ps[|ps| - 1].ToString()]
  }

  /** "[" followed by the persons' texts separated by ", " and a closing "]". */
  function QueueText(ps: seq<Person>): string
    reads ps
  {
    "[" + Join(PersonTexts(ps), ", ") + "]"
  }

  class PersonQueue {
    var queue: seq<Person>

    constructor ()
      ensures queue == []
    {
      queue := [];
    }

    function Length(): nat
      reads this
    {
      |queue|
    }

    predicate IsEmpty()
      reads this
      ensures IsEmpty() <==> Length() == 0
    {
      |queue| == 0
    }

    /** Adds a person to the back of the queue. */
    method Enqueue(person: Person)
      modifies this
      ensures queue == old(queue) + [person]
      ensures Length() == old(Length()) + 1 && !IsEmpty()
    {
      queue := queue + [person];
    }

    /** Removes and returns the front person; on an empty queue fails and changes nothing. */
    method Dequeue() returns (r: DequeueResult)
      modifies this
      ensures old(IsEmpty()) ==> r == QueueEmpty && queue == old(queue)
      ensures !old(IsEmpty()) ==> r == Dequeued(old(queue)[0]) && queue == old(queue)[1..]
      ensures !old(IsEmpty()) ==> Length() == old(Length()) - 1
    {
      if IsEmpty() {
        return QueueEmpty;
      }
      var person := queue[0];
      queue := queue[1..];
      return Dequeued(person);
    }

    function ToString(): string
      reads this, queue
    {
      QueueText(queue)
    }
  }

  /** The text of a queue tells whether it is empty: "[]" exactly for the empty queue. */
  lemma QueueTextEmpty(ps: seq<Person>)
    ensures QueueText(ps) == "[]" <==> ps == []
  {
    var texts := PersonTexts(ps);
    if ps != [] {
      JoinStartsWithFirst(texts, ", ");
      assert QueueText(ps)[1] == texts[0][0] == '(' by {
        ToStringDecodes(ps[0]);
      }
    }
  }

  /** The first part is a prefix of a join. */
  lemma {:induction false} JoinStartsWithFirst(parts: seq<string>, sep: string)
    requires |parts| >= 1
    ensures |Join(parts, sep)| >= |parts[0]|
    ensures Join(parts, sep)[..|parts[0]|] == parts[0]
  {
    if |parts| > 1 {
      JoinStartsWithFirst(parts[..|parts| - 1], sep);
    }
  }

  /** Enqueuing a person onto a nonempty queue adds ", " and that person's text before the "]". */
  lemma QueueTextSnoc(ps: seq<Person>, p: Person)
    requires ps != []
    ensures QueueText(ps + [p]) == QueueText(ps)[..|QueueText(ps)| - 1] + ", " + p.ToString() + "]"
  {
    var texts := PersonTexts(ps);
    assert PersonTexts(ps + [p]) == texts + [p.ToString()];
    JoinSnoc(texts, p.ToString(), ", ");
  }

  /** Persons enqueued one after another come out of the queue in the same order. */
  method FirstInFirstOut(ps: seq<Person>) returns (out: seq<Person>)
    ensures out == ps
  {
    var q := new PersonQueue();
    for i := 0 to |ps|
      invariant q.queue == ps[..i]
    {
      q.Enqueue(ps[i]);
    }
    assert ps[..|ps|] == ps;
    out := [];
    while !q.IsEmpty()
      invariant ps == out + q.queue
      decreases |q.queue|
    {
      var r := q.Dequeue();
      out := out + [r.person];
    }
  }
}
