/** A concrete line of the English text table and what the loader makes of it.
    The line is a parameter fixed by a requires so that the solver reasons about
    the general lemmas rather than unfolding the string functions character by
    character. */
module TextDictionaryExamples {
  import opened Runtime
  import opened TextDictionary

  /** A line whose value holds a comma inside quotes: the key is trimmed, the
      value keeps its comma and loses its quotes. */
  lemma RowItemExample(line: string)
    requires line == "1, Hello ,\"a,b\""
    ensures Kept(line) && RowItem(line) == Success(("Hello", "a,b"))
  {
    var a, b, c := "1", " Hello ", "\"a,b\"";
    ExampleSplit(line, a, b, c);
    ExampleTrimKey(b);
    ExampleTrimValue(c);
    UnquoteQuoted("a,b");
    RowItemFields(a, b, c);
  }

  /** The example line is the four comma-free fields "1", " Hello ", "\"a" and "b\""
      joined by commas, so the filter keeps it. */
  lemma ExampleSplit(line: string, a: string, b: string, c: string)
    requires line == "1, Hello ,\"a,b\"" && a == "1" && b == " Hello " && c == "\"a,b\""
    ensures line == a + "," + b + "," + c && ',' !in a && ',' !in b
    ensures Kept(line)
  {
    var d, e := "\"a", "b\"";
    ExampleJoin(line, a, b, c, d, e);
    JoinSplit([a, b, d, e]);
    assert |Split(line)| == 4;
    assert line[..1] == "1";
  }

  lemma ExampleJoin(line: string, a: string, b: string, c: string, d: string, e: string)
    requires line == "1, Hello ,\"a,b\"" && a == "1" && b == " Hello " && c == "\"a,b\""
    requires d == "\"a" && e == "b\""
    ensures line == a + "," + b + "," + c && c == d + "," + e
    ensures Join([a, b, d, e]) == line
    ensures ',' !in a && ',' !in b && ',' !in d && ',' !in e
  {
    var fields := [a, b, d, e];
    assert fields[1..][1..][1..] == [e];
    assert Join(fields[1..][1..]) == d + "," + e;
    assert Join(fields[1..]) == b + "," + (d + "," + e);
    assert Join(fields) == a + "," + (b + "," + (d + "," + e));
  }

  lemma ExampleTrimKey(b: string)
    requires b == " Hello "
    ensures Trim(b) == "Hello"
  {
    assert b == " " + "Hello" + " ";
    TrimUnique(" ", "Hello", " ");
  }

  lemma ExampleTrimValue(c: string)
    requires c == "\"a,b\""
    ensures Trim(c) == c && c == "\"" + "a,b" + "\""
  {
    assert [] + c + [] == c;
    TrimUnique([], c, []);
  }
}
