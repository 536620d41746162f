// The text format of saved skeletons, one joint per line:
//   create -joint <name> -rotate <rx, ry, rz> -translate <px, py, pz> -parent <parent>;
//
// Turning a float into text (operator<<) and text into a float (std::stof) are library
// conversions; the model takes them as parameters and treats number text as an opaque,
// whitespace-free string.
module SkeletonText {
  import opened Common
  import opened Geometry

  // ---------------------------------------------------------------- splitting on whitespace

  /** The characters `stream >> word` skips. */
  predicate IsSpace(c: char)
  {
    c == ' ' || c == '\t' || c == '\n' || c == '\r' || c == '\U{000B}' || c == '\U{000C}'
  }

  /** A non-empty string without whitespace: one token of the format. */
  predicate IsWord(w: string)
  {
    |w| > 0 && forall k | 0 <= k < |w| :: !IsSpace(w[k])
  }

  /** The number of leading non-whitespace characters. */
  function WordLength(s: string): (n: nat)
    ensures n <= |s|
    ensures forall k | 0 <= k < n :: !IsSpace(s[k])
    ensures n < |s| ==> IsSpace(s[n])
    decreases |s|
  {
    if s == [] || IsSpace(s[0]) then 0 else 1 + WordLength(s[1..])
  }

  /** The words of `s`, in order: what repeated `stream >> word` extracts. */
  function Words(s: string): (ws: seq<string>)
    ensures forall k | 0 <= k < |ws| :: IsWord(ws[k])
    decreases |s|
  {
    if s == [] then []
    else if IsSpace(s[0]) then Words(s[1..])
    else var n := WordLength(s); [s[..n]] + Words(s[n..])
  }

  /** The tokenizing loop of loadFromFile: `while (ss >> word) splitted.push_back(word);` */
  method SplitWords(line: string) returns (splitted: seq<string>)
    ensures splitted == Words(line)
  {
    splitted := [];
    var pos := 0;
    while pos < |line|
      invariant 0 <= pos <= |line|
      invariant splitted + Words(line[pos..]) == Words(line)
      decreases |line| - pos
    {
      if IsSpace(line[pos]) {
        WordsAfterSpace(line, pos);
        pos := pos + 1;
      } else {
        var end := pos;
        while end < |line| && !IsSpace(line[end])
          invariant pos <= end <= |line|
          invariant forall k | pos <= k < end :: !IsSpace(line[k])
          decreases |line| - end
        {
          end := end + 1;
        }
        WordsAfterWord(line, pos, end);
        assert splitted + [line[pos..end]] + Words(line[end..]) == splitted + Words(line[pos..]);
        splitted := splitted + [line[pos..end]];
        pos := end;
      }
    }
  }

  /** Whitespace in front of the words is skipped. */
  lemma WordsAfterSpace(s: string, pos: nat)
    requires pos < |s| && IsSpace(s[pos])
    ensures Words(s[pos..]) == Words(s[pos + 1..])
  {
    assert s[pos..][1..] == s[pos + 1..];
  }

  /** The maximal run of non-whitespace at `pos` is the next word. */
  lemma WordsAfterWord(s: string, pos: nat, end: nat)
    requires pos < end <= |s|
    requires forall k | pos <= k < end :: !IsSpace(s[k])
    requires end == |s| || IsSpace(s[end])
    ensures Words(s[pos..]) == [s[pos..end]] + Words(s[end..])
  {
    WordLengthOfPrefix(s[pos..], end - pos);
    assert s[pos..][..end - pos] == s[pos..end];
    assert s[pos..][end - pos..] == s[end..];
  }

  lemma {:induction false} WordLengthOfPrefix(s: string, n: nat)
    requires n <= |s|
    requires forall k | 0 <= k < n :: !IsSpace(s[k])
    requires n == |s| || IsSpace(s[n])
    ensures WordLength(s) == n
    decreases n
  {
    if n > 0 {
      WordLengthOfPrefix(s[1..], n - 1);
    }
  }

  /** Words separated by single spaces. */
  function JoinWords(ws: seq<string>): string
    decreases |ws|
  {
    if ws == [] then "" else if |ws| == 1 then ws[0] else ws[0] + " " + JoinWords(ws[1..])
  }

  /** Splitting words joined by spaces gives the words back. */
  lemma {:induction false} WordsOfJoin(ws: seq<string>)
    requires forall k | 0 <= k < |ws| :: IsWord(ws[k])
    ensures Words(JoinWords(ws)) == ws
    decreases |ws|
  {
    if ws == [] {
    } else if |ws| == 1 {
      WordsOfWordThen(ws[0], "");
      assert ws[0] + "" == ws[0];
    } else {
      var rest := JoinWords(ws[1..]);
      WordsOfWordThen(ws[0], " " + rest);
      assert ws[0] + " " + rest == ws[0] + (" " + rest);
      assert (" " + rest)[1..] == rest;
      WordsOfJoin(ws[1..]);
    }
  }

  /** A word followed by whitespace or the end of the text is split off as one word. */
  lemma WordsOfWordThen(w: string, rest: string)
    requires IsWord(w)
    requires rest == [] || IsSpace(rest[0])
    ensures Words(w + rest) == [w] + Words(rest)
  {
    var s := w + rest;
    WordLengthOfPrefix(s, |w|);
    assert s[..|w|] == w && s[|w|..] == rest;
  }

  // ---------------------------------------------------------------- lines of a file

  /** Lines separated by newlines, without a newline after the last one. */
  function JoinLines(ls: seq<string>): string
    decreases |ls|
  {
    if ls == [] then "" else if |ls| == 1 then ls[0] else JoinLines(ls[..|ls| - 1]) + "\n" + ls[|ls| - 1]
  }

  /** One more line is appended after a newline. */
  lemma JoinLinesSnoc(ls: seq<string>, l: string)
    requires ls != []
    ensures JoinLines(ls + [l]) == JoinLines(ls) + "\n" + l
  {
    assert (ls + [l])[..|ls|] == ls;
  }

  /** The lines of a text: the pieces between its newlines (one empty line for an empty text). */
  function Lines(text: string): (ls: seq<string>)
    ensures |ls| >= 1
    decreases |text|
  {
    if text == [] then [""]
    else
      var init, c := text[..|text| - 1], text[|text| - 1];
      var ls := Lines(init);
      if c == '\n' then ls + [""] else ls[..|ls| - 1] + [ls[|ls| - 1] + [c]]
  }

  predicate NoNewline(s: string)
  {
    forall k | 0 <= k < |s| :: s[k] != '\n'
  }

  /** A text ending in a line without newlines splits into the lines before and that line. */
  lemma {:induction false} LinesOfLastLine(a: string, b: string)
    requires NoNewline(b)
    ensures Lines(a + "\n" + b) == Lines(a) + [b]
    decreases |b|
  {
    if b == [] {
      assert a + "\n" + b == a + "\n";
      assert (a + "\n")[..|a|] == a;
    } else {
      var init := b[..|b| - 1];
      assert (a + "\n" + b)[..|a + "\n" + b| - 1] == a + "\n" + init;
      LinesOfLastLine(a, init);
      assert init + [b[|b| - 1]] == b;
    }
  }

  lemma {:induction false} LinesOfOneLine(b: string)
    requires NoNewline(b)
    ensures Lines(b) == [b]
    decreases |b|
  {
    if b != [] {
      var init := b[..|b| - 1];
      LinesOfOneLine(init);
      assert init + [b[|b| - 1]] == b;
    }
  }

  /** Splitting joined lines gives the lines back, when none of them holds a newline. */
  lemma {:induction false} LinesOfJoin(ls: seq<string>)
    requires ls != [] && forall k | 0 <= k < |ls| :: NoNewline(ls[k])
    ensures Lines(JoinLines(ls)) == ls
    decreases |ls|
  {
    if |ls| == 1 {
      LinesOfOneLine(ls[0]);
    } else {
      var init, last := ls[..|ls| - 1], ls[|ls| - 1];
      assert forall k | 0 <= k < |init| :: NoNewline(init[k]) by {
        forall k | 0 <= k < |init| ensures NoNewline(init[k]) {
          assert init[k] == ls[k];
        }
      }
      LinesOfJoin(init);
      var j := JoinLines(init);
      assert JoinLines(ls) == j + "\n" + last;
      LinesOfLastLine(j, last);
      assert init + [last] == ls;
    }
  }

  /** The number of lines loadFromFile reads: it stops at the first empty line. */
  function LoadCount(lines: seq<string>): (n: nat)
    ensures n <= |lines|
    ensures forall k | 0 <= k < n :: lines[k] != []
    ensures n < |lines| ==> lines[n] == []
    decreases |lines|
  {
    if lines == [] || lines[0] == [] then 0
    else
      assert forall k | 0 <= k < |lines| - 1 :: lines[1..][k] == lines[k + 1];
      1 + LoadCount(lines[1..])
  }

  // ---------------------------------------------------------------- joint names and the counter

  function DigitChar(d: nat): char
    requires d < 10
  {
    "0123456789"[d]
  }

  predicate IsDigit(c: char)
  {
    '0' <= c <= '9'
  }

  function DigitValue(c: char): nat
    requires IsDigit(c)
  {
    (c as int - '0' as int) as nat
  }

  /** std::to_string of a non-negative int: its decimal digits. */
  function NatToString(n: nat): (s: string)
    ensures |s| >= 1 && forall k | 0 <= k < |s| :: IsDigit(s[k])
    ensures DigitValue(s[|s| - 1]) == n % 10
    decreases n
  {
    if n < 10 then [DigitChar(n)] else NatToString(n / 10) + [DigitChar(n % 10)]
  }

  /** The name createJoint gives a joint: "joint" followed by the counter. */
  function JointName(counter: nat): (name: string)
    ensures IsWord(name) && IsDigit(name[|name| - 1])
    ensures DigitValue(name[|name| - 1]) == counter % 10
  {
    var name := "joint" + NatToString(counter);
    assert forall k | 5 <= k < |name| :: IsDigit(name[k]);
    name
  }

  /** A name loadFromFile can read a counter from: its last character is a digit. */
  predicate EndsInDigit(name: string)
  {
    |name| > 0 && IsDigit(name[|name| - 1])
  }

  /** `stoi(name.substr(name.size() - 1, name.size()))`: the value of the last character only. */
  function LastDigit(name: string): (d: nat)
    requires EndsInDigit(name)
    ensures d < 10
  {
    DigitValue(name[|name| - 1])
  }

  /** A saved joint's name gives back only the last decimal digit of the counter it was made with. */
  lemma LastDigitOfJointName(counter: nat)
    ensures EndsInDigit(JointName(counter)) && LastDigit(JointName(counter)) == counter % 10
  {
  }

  /** The counter after loading names: one more than the largest of the old counter and the last digits. */
  function CounterAfterLoad(counter: nat, names: seq<string>): (c: nat)
    requires forall k | 0 <= k < |names| :: EndsInDigit(names[k])
    ensures c > counter
    ensures forall k | 0 <= k < |names| :: c > LastDigit(names[k])
  {
    MaxLastDigit(counter, names) + 1
  }

  /** The running `jointNumber = max(jointNumber, stoi(...))` over the names read. */
  function MaxLastDigit(counter: nat, names: seq<string>): (m: nat)
    requires forall k | 0 <= k < |names| :: EndsInDigit(names[k])
    ensures m >= counter && forall k | 0 <= k < |names| :: m >= LastDigit(names[k])
    ensures m == counter || exists k | 0 <= k < |names| :: m == LastDigit(names[k])
    decreases |names|
  {
    if names == [] then counter
    else
      var m := MaxLastDigit(counter, names[..|names| - 1]);
      var d := LastDigit(names[|names| - 1]);
      assert forall k | 0 <= k < |names| - 1 :: names[..|names| - 1][k] == names[k];
      Max(m, d)
  }

  /** One more name read updates the running counter by one max. */
  lemma MaxLastDigitExtend(counter: nat, names: seq<string>, n: nat)
    requires n < |names| && forall k | 0 <= k < |names| :: EndsInDigit(names[k])
    ensures MaxLastDigit(counter, names[..n + 1]) == Max(MaxLastDigit(counter, names[..n]), LastDigit(names[n]))
  {
    assert names[..n + 1][..n] == names[..n];
  }

  /**
   * Because only the last digit is read, a fresh session that loads joints joint0 ..
   * joint10 sets the counter to 10, so the next joint created is named joint10 again.
   */
  lemma CounterCollidesAfterTenJoints()
    ensures var names := seq(11, k requires 0 <= k < 11 => JointName(k));
            && CounterAfterLoad(0, names) == 10
            && JointName(CounterAfterLoad(0, names)) == names[10]
  {
    var names := seq(11, k requires 0 <= k < 11 => JointName(k));
    forall k | 0 <= k < 11 ensures LastDigit(names[k]) == k % 10 {
      LastDigitOfJointName(k);
    }
    assert LastDigit(names[9]) == 9;
    assert MaxLastDigit(0, names) <= 9;
  }

  // ---------------------------------------------------------------- rounding

  /** The C++ cast `(int) r`: truncation toward zero. */
  function Truncate(r: real): int
  {
    if r >= 0.0 then r.Floor else -((-r).Floor)
  }

  /** `((int)(x * 100 + .5)) / 100.0f`, the two-decimal rounding of saveToFile. */
  function Round2(x: real): real
  {
    Truncate(x * 100.0 + 0.5) as real / 100.0
  }

  /**
   * From -0.005 up, the rounding is to the nearest hundredth (halves up). Below that the
   * cast truncates toward zero, so the result lands above x by at least 0.005 and less than
   * 0.015; it is never more than 0.015 off.
   */
  lemma Round2Error(x: real)
    ensures x >= -0.005 ==> -0.005 < Round2(x) - x <= 0.005
    ensures x < -0.005 ==> 0.005 <= Round2(x) - x < 0.015
  {
    var y := x * 100.0 + 0.5;
    if y >= 0.0 {
      assert y - 1.0 < y.Floor as real <= y;
    } else {
      assert (-y) - 1.0 < (-y).Floor as real <= -y;
    }
  }

  /** A negative value can come out a whole hundredth above the nearest one: -1.234 is written as -1.22. */
  lemma Round2OfNegative()
    ensures Round2(-1.234) == -1.22
  {
    assert -1.234 * 100.0 + 0.5 == -122.9;
    assert (122.9).Floor == 122;
  }

  function RoundVec(v: Vec3): Vec3
  {
    Vec3(Round2(v.x), Round2(v.y), Round2(v.z))
  }

  /**
   * What the file's numbers need of the stream conversions: the text operator<< writes for
   * any value saveToFile can write (a rounded one) is a single word, and stof reads it
   * back, also when a comma follows it.
   */
  ghost predicate NumbersReadBack(fmt: real -> string, stof: string -> real)
  {
    forall x: real :: IsWord(fmt(Round2(x))) && stof(fmt(Round2(x))) == Round2(x) && stof(fmt(Round2(x)) + ",") == Round2(x)
  }

  /** A number text that spells out the whole hundredths of `r` in unary after their sign. */
  function TallyText(r: real): string
  {
    var n := (r * 100.0).Floor;
    (if n < 0 then "-" else "+") + seq(if n < 0 then -n else n, _ => '1')
  }

  /** Reads a TallyText back, after dropping one trailing comma. */
  function TallyValue(s: string): real
  {
    var t := if |s| > 0 && s[|s| - 1] == ',' then s[..|s| - 1] else s;
    if |t| == 0 then 0.0
    else if t[0] == '-' then -((|t| - 1) as real / 100.0)
    else (|t| - 1) as real / 100.0
  }

  /** The conversions can meet NumbersReadBack, since rounded values are whole hundredths. */
  lemma NumbersCanReadBack()
    ensures NumbersReadBack(TallyText, TallyValue)
  {
    forall x: real
      ensures IsWord(TallyText(Round2(x)))
      ensures TallyValue(TallyText(Round2(x))) == Round2(x)
      ensures TallyValue(TallyText(Round2(x)) + ",") == Round2(x)
    {
      var r := Round2(x);
      var t := Truncate(x * 100.0 + 0.5);
      assert r * 100.0 == t as real;
      assert (r * 100.0).Floor == t;
      var s := TallyText(r);
      assert |s| == 1 + (if t < 0 then -t else t);
      assert (s + ",")[..|s + ","| - 1] == s;
    }
  }

  // ---------------------------------------------------------------- one line of the file

  /** operator<< for a glm::vec3: "x, y, z". */
  function VecText(v: Vec3, fmt: real -> string): string
  {
    fmt(v.x) + ", " + fmt(v.y) + ", " + fmt(v.z)
  }

  /** The line saveToFile writes for one joint; `parentName` is empty for a root. */
  function SaveLine(name: string, rotation: Vec3, position: Vec3, parentName: string, fmt: real -> string): string
  {
    "create -joint " + name + " -rotate <" + VecText(RoundVec(rotation), fmt) +
    "> -translate <" + VecText(RoundVec(position), fmt) + "> -parent " + parentName + ";"
  }

  /** What loadFromFile takes from one line. */
  datatype JointRecord = JointRecord(name: string, rotation: Vec3, position: Vec3, parentName: string)

  /** `s.substr(0, s.size() - 1)`: drop the last character (an empty string stays empty). */
  function DropLast(s: string): string
  {
    if s == [] then [] else s[..|s| - 1]
  }

  /** A line loadFromFile can read: at least 13 words, the name in word 2 ending in a digit. */
  predicate Readable(line: string)
  {
    var ws := Words(line);
    |ws| >= 13 && EndsInDigit(ws[2])
  }

  /**
   * The fields loadFromFile reads from a line's words: the name from word 2, the rotation
   * from words 4-6 and the translation from words 8-10 (the first of each without its
   * leading '<', the other two without their last character), and the parent from word 12
   * without its last character.
   */
  function ParseWords(ws: seq<string>, stof: string -> real): (r: JointRecord)
    requires |ws| >= 13 && forall k | 0 <= k < |ws| :: IsWord(ws[k])
    ensures r.name == ws[2] && r.parentName == DropLast(ws[12])
  {
    assert IsWord(ws[4]) && IsWord(ws[8]);
    JointRecord(
      ws[2],
      Vec3(stof(ws[4][1..]), stof(DropLast(ws[5])), stof(DropLast(ws[6]))),
      Vec3(stof(ws[8][1..]), stof(DropLast(ws[9])), stof(DropLast(ws[10]))),
      DropLast(ws[12]))
  }

  function ParseLine(line: string, stof: string -> real): (r: JointRecord)
    requires Readable(line)
    ensures EndsInDigit(r.name)
  {
    ParseWords(Words(line), stof)
  }

  /** The words of a saved line. */
  function SavedWords(name: string, rx: string, ry: string, rz: string, px: string, py: string, pz: string,
                      parentName: string): seq<string>
  {
    ["create", "-joint", name, "-rotate", "<" + rx + ",", ry + ",", rz + ">",
     "-translate", "<" + px + ",", py + ",", pz + ">", "-parent", parentName + ";"]
  }

  lemma SaveLineIsJoin(name: string, rotation: Vec3, position: Vec3, parentName: string, fmt: real -> string)
    ensures var r, p := RoundVec(rotation), RoundVec(position);
            SaveLine(name, rotation, position, parentName, fmt)
            == JoinWords(SavedWords(name, fmt(r.x), fmt(r.y), fmt(r.z), fmt(p.x), fmt(p.y), fmt(p.z), parentName))
  {
    var r, p := RoundVec(rotation), RoundVec(position);
    SavedLineIsJoin(name, fmt(r.x), fmt(r.y), fmt(r.z), fmt(p.x), fmt(p.y), fmt(p.z), parentName);
  }

  lemma SavedLineIsJoin(name: string, rx: string, ry: string, rz: string, px: string, py: string, pz: string,
                        parentName: string)
    ensures "create -joint " + name + " -rotate <" + (rx + ", " + ry + ", " + rz) +
            "> -translate <" + (px + ", " + py + ", " + pz) + "> -parent " + parentName + ";"
            == JoinWords(SavedWords(name, rx, ry, rz, px, py, pz, parentName))
  {
    SavedWordsJoin(name, rx, ry, rz, px, py, pz, parentName);
    LineRegrouped(name, rx + ", " + ry + ", " + rz, px + ", " + py + ", " + pz, parentName);
  }

  lemma SavedWordsJoin(name: string, rx: string, ry: string, rz: string, px: string, py: string, pz: string,
                       parentName: string)
    ensures JoinWords(SavedWords(name, rx, ry, rz, px, py, pz, parentName))
            == ("create -joint " + name + " -rotate") + " " + (("<" + (rx + ", " + ry + ", " + rz) + ">") + " " +
               ("-translate" + " " + (("<" + (px + ", " + py + ", " + pz) + ">") + " " +
               ("-parent" + " " + (parentName + ";")))))
  {
    var head := ["create", "-joint", name, "-rotate"];
    var rot := ["<" + rx + ",", ry + ",", rz + ">"];
    var pos := ["<" + px + ",", py + ",", pz + ">"];
    var tail := ["-parent", parentName + ";"];
    assert SavedWords(name, rx, ry, rz, px, py, pz, parentName) == head + (rot + (["-translate"] + (pos + tail)));
    JoinAppend(pos, tail);
    JoinAppend(["-translate"], pos + tail);
    JoinAppend(rot, ["-translate"] + (pos + tail));
    JoinAppend(head, rot + (["-translate"] + (pos + tail)));
    HeadTokensJoin(name);
    VecTokensJoin(rx, ry, rz);
    VecTokensJoin(px, py, pz);
    assert tail == ["-parent"] + [parentName + ";"];
    JoinAppend(["-parent"], [parentName + ";"]);
  }

  lemma HeadTokensJoin(name: string)
    ensures JoinWords(["create", "-joint", name, "-rotate"]) == "create -joint " + name + " -rotate"
  {
    JoinFour("create", "-joint", name, "-rotate");
    assert "create" + " " + "-joint" + " " == "create -joint ";
  }

  lemma LineRegrouped(name: string, vr: string, vp: string, parentName: string)
    ensures "create -joint " + name + " -rotate <" + vr + "> -translate <" + vp + "> -parent " + parentName + ";"
            == ("create -joint " + name + " -rotate") + " " + (("<" + vr + ">") + " " + ("-translate" + " " +
               (("<" + vp + ">") + " " + ("-parent" + " " + (parentName + ";")))))
  {
    assert " -rotate <" == " -rotate" + " " + "<";
    assert "> -translate <" == ">" + " " + "-translate" + " " + "<";
    assert "> -parent " == ">" + " " + "-parent" + " ";
  }

  /** The three tokens of a saved vector join back into `<x, y, z>`. */
  lemma VecTokensJoin(x: string, y: string, z: string)
    ensures JoinWords(["<" + x + ",", y + ",", z + ">"]) == "<" + (x + ", " + y + ", " + z) + ">"
  {
    JoinThree("<" + x + ",", y + ",", z + ">");
    assert ", " == "," + " ";
  }

  lemma {:induction false} JoinAppend(xs: seq<string>, ys: seq<string>)
    requires xs != [] && ys != []
    ensures JoinWords(xs + ys) == JoinWords(xs) + " " + JoinWords(ys)
    decreases |xs|
  {
    if |xs| == 1 {
      assert (xs + ys)[1..] == ys;
    } else {
      assert (xs + ys)[1..] == xs[1..] + ys;
      JoinAppend(xs[1..], ys);
    }
  }

  lemma JoinThree(a: string, b: string, c: string)
    ensures JoinWords([a, b, c]) == a + " " + b + " " + c
  {
    assert [a, b, c] == [a] + [b, c];
    JoinAppend([a], [b, c]);
    assert [b, c] == [b] + [c];
    JoinAppend([b], [c]);
  }

  lemma JoinFour(a: string, b: string, c: string, d: string)
    ensures JoinWords([a, b, c, d]) == a + " " + b + " " + c + " " + d
  {
    assert [a, b, c, d] == [a] + [b, c, d];
    JoinAppend([a], [b, c, d]);
    JoinThree(b, c, d);
  }

  /** Words joined by spaces hold no newline. */
  lemma {:induction false} JoinWordsHasNoNewline(ws: seq<string>)
    requires forall k | 0 <= k < |ws| :: IsWord(ws[k])
    ensures NoNewline(JoinWords(ws))
    decreases |ws|
  {
    if |ws| > 1 {
      assert forall k | 0 <= k < |ws| - 1 :: ws[1..][k] == ws[k + 1];
      JoinWordsHasNoNewline(ws[1..]);
      assert IsWord(ws[0]);
    }
  }

  /** A saved line is one non-empty line, when the names and the text of every rounded value are single words. */
  lemma SaveLineIsOneLine(name: string, rotation: Vec3, position: Vec3, parentName: string, fmt: real -> string)
    requires IsWord(name)
    requires forall k | 0 <= k < |parentName| :: !IsSpace(parentName[k])
    requires forall x: real :: IsWord(fmt(Round2(x)))
    ensures var line := SaveLine(name, rotation, position, parentName, fmt);
            line != [] && NoNewline(line)
  {
    var r, p := RoundVec(rotation), RoundVec(position);
    var rx, ry, rz, px, py, pz := fmt(r.x), fmt(r.y), fmt(r.z), fmt(p.x), fmt(p.y), fmt(p.z);
    var ws := SavedWords(name, rx, ry, rz, px, py, pz, parentName);
    SavedWordsFields(name, rx, ry, rz, px, py, pz, parentName);
    SaveLineIsJoin(name, rotation, position, parentName, fmt);
    JoinWordsHasNoNewline(ws);
  }

  /**
   * A saved line reads back as the joint it was written from, rounded: provided the names
   * are single words and that stof reads back what operator<< wrote for every rounded
   * value, also when a comma follows the number (the first component of each vector
   * keeps its comma).
   */
  lemma {:induction false} ParseSaveLine(name: string, rotation: Vec3, position: Vec3, parentName: string,
                                         fmt: real -> string, stof: string -> real)
    requires IsWord(name) && EndsInDigit(name)
    requires forall k | 0 <= k < |parentName| :: !IsSpace(parentName[k])
    requires NumbersReadBack(fmt, stof)
    ensures Readable(SaveLine(name, rotation, position, parentName, fmt))
    ensures ParseLine(SaveLine(name, rotation, position, parentName, fmt), stof)
            == JointRecord(name, RoundVec(rotation), RoundVec(position), parentName)
  {
    var r, p := RoundVec(rotation), RoundVec(position);
    var rx, ry, rz, px, py, pz := fmt(r.x), fmt(r.y), fmt(r.z), fmt(p.x), fmt(p.y), fmt(p.z);
    var ws := SavedWords(name, rx, ry, rz, px, py, pz, parentName);
    SavedWordsFields(name, rx, ry, rz, px, py, pz, parentName);
    SaveLineIsJoin(name, rotation, position, parentName, fmt);
    WordsOfJoin(ws);
    assert stof(rx + ",") == r.x && stof(ry) == r.y && stof(rz) == r.z;
    assert stof(px + ",") == p.x && stof(py) == p.y && stof(pz) == p.z;
  }

  /** The words of a saved line are single words, and the fields loadFromFile cuts from them are the ones written. */
  lemma SavedWordsFields(name: string, rx: string, ry: string, rz: string, px: string, py: string, pz: string,
                         parentName: string)
    requires IsWord(name) && IsWord(rx) && IsWord(ry) && IsWord(rz) && IsWord(px) && IsWord(py) && IsWord(pz)
    requires forall k | 0 <= k < |parentName| :: !IsSpace(parentName[k])
    ensures var ws := SavedWords(name, rx, ry, rz, px, py, pz, parentName);
            && |ws| == 13 && (forall k | 0 <= k < |ws| :: IsWord(ws[k]))
            && ws[2] == name && ws[4][1..] == rx + "," && ws[8][1..] == px + ","
            && DropLast(ws[5]) == ry && DropLast(ws[6]) == rz
            && DropLast(ws[9]) == py && DropLast(ws[10]) == pz
            && DropLast(ws[12]) == parentName
  {
    var ws := SavedWords(name, rx, ry, rz, px, py, pz, parentName);
    assert IsWord(ws[4]) && IsWord(ws[5]) && IsWord(ws[6]);
    assert IsWord(ws[8]) && IsWord(ws[9]) && IsWord(ws[10]);
    assert IsWord(ws[12]);
    assert ws[4][1..] == rx + "," && ws[8][1..] == px + ",";
    assert DropLast(ws[5]) == ry && DropLast(ws[6]) == rz;
    assert DropLast(ws[9]) == py && DropLast(ws[10]) == pz;
  }
}
