/**
 The line parser (`getName`): the player name is the text of the fourth
 space-separated field of a login line, up to its first `[`.
 */
module Parser {
  import opened Text

  /** Zero-based index of the `USERNAME[/IP_ADDRESS]` field. */
  const NameField := 3

  /** Outcome of parsing one line. `MissingField` stands for the `IndexError`
      Python raises when the line has no field at `NameField`; `fields` is how
      many fields the line did have. */
  datatype ParseResult = Name(name: string) | MissingField(fields: nat)

  /** `getName`: field `NameField` of the line split on single spaces, cut at
      its first `[` (kept whole when it has none). */
  function GetName(line: string): (r: ParseResult)
    ensures r.MissingField? <==> multiset(line)[' '] < NameField
    ensures r.MissingField? ==> r.fields == multiset(line)[' '] + 1
    ensures r.Name? ==>
              |Split(line, ' ')| > NameField &&
              var field := Split(line, ' ')[NameField];
              && r.name <= field
              && '[' !in r.name
              && ' ' !in r.name
              && ('[' in field ==> field[|r.name|] == '[')
              && ('[' !in field ==> r.name == field)
  {
    var fields := Split(line, ' ');
    SplitFields(line, ' ');
    if |fields| <= NameField then MissingField(|fields|)
    else
      SplitFields(fields[NameField], '[');
      Name(Split(fields[NameField], '[')[0])
  }

  /** A line of the documented shape
      `F0 F1 F2 NAME[SUFFIX REST`, whose first three fields and whose name and
      suffix hold no space, parses to `NAME` whenever `NAME` holds no `[`. */
  lemma ParsesLoginLine(f0: string, f1: string, f2: string, name: string, suffix: string, rest: string)
    requires ' ' !in f0 && ' ' !in f1 && ' ' !in f2
    requires ' ' !in name && '[' !in name && ' ' !in suffix
    ensures GetName(f0 + " " + f1 + " " + f2 + " " + name + "[" + suffix + " " + rest) == Name(name)
  {
    var field := name + ['['] + suffix;
    var line := f0 + [' '] + (f1 + [' '] + (f2 + [' '] + (field + [' '] + rest)));
    assert f0 + " " + f1 + " " + f2 + " " + name + "[" + suffix + " " + rest == line;
    assert ' ' !in field;
    assert Split(line, ' ')[NameField] == field by {
      FourthField(f0, f1, f2, field, rest);
    }
    assert Split(field, '[')[0] == name by {
      SplitAfterField(name, '[', suffix);
    }
  }

  /** Field `NameField` of four space-free fields followed by a space is the fourth. */
  lemma FourthField(f0: string, f1: string, f2: string, f3: string, rest: string)
    requires ' ' !in f0 && ' ' !in f1 && ' ' !in f2 && ' ' !in f3
    ensures var fields := Split(f0 + [' '] + (f1 + [' '] + (f2 + [' '] + (f3 + [' '] + rest))), ' ');
            |fields| > NameField && fields[NameField] == f3
  {
    var t3 := f3 + [' '] + rest;
    var t2 := f2 + [' '] + t3;
    var t1 := f1 + [' '] + t2;
    SplitAfterField(f3, ' ', rest);
    SplitAfterField(f2, ' ', t3);
    SplitAfterField(f1, ' ', t2);
    SplitAfterField(f0, ' ', t1);
  }
}
