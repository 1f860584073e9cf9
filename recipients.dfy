/** The recipient list of the e-mail mode: typed one address per line,
    trimmed, blank lines dropped; later written into a `To` header joined
    by `"; "`. */
module Recipients {
  import opened Text

  /** Every address a cleaned list can hold: not empty, trimmed and free of
      the separator `c` it was split at. */
  predicate IsAddressList(rs: seq<string>, c: char)
  {
    forall i :: 0 <= i < |rs| ==> rs[i] != "" && IsTrimmed(rs[i]) && c !in rs[i]
  }

  /** The filter of the list comprehension: each line stripped, kept when
      what remains is not empty. */
  function CleanLines(lines: seq<string>): (rs: seq<string>)
    ensures |rs| <= |lines|
    ensures forall i :: 0 <= i < |rs| ==> rs[i] != "" && IsTrimmed(rs[i])
  {
    if |lines| == 0 then []
    else
      var s := Strip(lines[0]);
      (if s != "" then [s] else []) + CleanLines(lines[1..])
  }

  /** The recipient list parsed from the text area: split at `'\n'`, strip
      every line, drop the lines that strip to nothing. */
  function ParseRecipients(text: string): (rs: seq<string>)
    ensures |rs| <= Count(text, '\n') + 1
    ensures IsAddressList(rs, '\n')
  {
    var lines := Split(text, '\n');
    var rs := CleanLines(lines);
    CleanedFromPieces(lines, '\n');
    rs
  }

  /** The `To` header: the recipients joined by `"; "`. */
  function ToHeader(rs: seq<string>): (h: string)
    ensures |rs| == 1 ==> h == rs[0]
    ensures |rs| == 0 ==> h == ""
  {
    Join(rs, "; ")
  }

  /** How a mail client reads the `To` header back: split at `';'`, strip
      every address, drop the empty ones. */
  function ParseAddressList(h: string): (rs: seq<string>)
    ensures IsAddressList(rs, ';')
  {
    var parts := Split(h, ';');
    CleanedFromPieces(parts, ';');
    CleanLines(parts)
  }

  lemma {:induction false} CleanedFromPieces(lines: seq<string>, c: char)
    requires forall i :: 0 <= i < |lines| ==> c !in lines[i]
    ensures IsAddressList(CleanLines(lines), c)
  {
    if |lines| > 0 {
      CleanedFromPieces(lines[1..], c);
      var s := Strip(lines[0]);
      var k := StripInfix(lines[0]);
      forall j | 0 <= j < |s| ensures s[j] != c {
        assert s[j] == lines[0][k + j];
      }
    }
  }

  lemma {:induction false} CleanLinesConcat(xs: seq<string>, ys: seq<string>)
    ensures CleanLines(xs + ys) == CleanLines(xs) + CleanLines(ys)
  {
    if |xs| > 0 {
      assert (xs + ys)[1..] == xs[1..] + ys;
      CleanLinesConcat(xs[1..], ys);
    } else {
      assert xs + ys == ys;
    }
  }

  lemma {:induction false} CleanLinesEmptyIff(lines: seq<string>)
    ensures CleanLines(lines) == [] <==> forall i :: 0 <= i < |lines| ==> Strip(lines[i]) == ""
  {
    if |lines| > 0 {
      CleanLinesEmptyIff(lines[1..]);
      assert forall i :: 1 <= i < |lines| ==> lines[i] == lines[1..][i - 1];
    }
  }

  /** No recipient is parsed exactly when the text area holds nothing but
      white space: the case the application answers with an error. */
  lemma NoRecipientsIffBlank(text: string)
    ensures ParseRecipients(text) == [] <==> AllSpace(text)
  {
    var lines := Split(text, '\n');
    CleanLinesEmptyIff(lines);
    SplitChars(text, '\n');
    if AllSpace(text) {
      forall i | 0 <= i < |lines| ensures Strip(lines[i]) == "" {
        assert AllSpace(lines[i]) by {
          forall j | 0 <= j < |lines[i]| ensures IsSpace(lines[i][j]) {
            var k :| 0 <= k < |text| && text[k] == lines[i][j];
          }
        }
        StripEmptyIffAllSpace(lines[i]);
      }
    }
    if ParseRecipients(text) == [] && !AllSpace(text) {
      var k :| 0 <= k < |text| && !IsSpace(text[k]);
      var i :| 0 <= i < |lines| && text[k] in lines[i];
      StripEmptyIffAllSpace(lines[i]);
      assert false;
    }
  }

  /** The lines of two texts typed one after the other give their
      recipients in the same order. */
  lemma ParseRecipientsConcat(a: string, b: string)
    ensures ParseRecipients(a + "\n" + b) == ParseRecipients(a) + ParseRecipients(b)
  {
    SplitConcat(a, '\n', b);
    CleanLinesConcat(Split(a, '\n'), Split(b, '\n'));
  }

  lemma CleanLine(line: string)
    ensures CleanLines([line]) == if Strip(line) != "" then [Strip(line)] else []
  {
    assert [line][1..] == [];
  }

  /** A piece made of white space alone yields no address. */
  lemma BlankPiece(w: string, c: char)
    requires AllSpace(w) && c !in w
    ensures CleanLines(Split(w, c)) == []
  {
    assert Split(w, c) == [w] by { SplitNoSeparator(w, c); }
    assert Strip(w) == "" by {
      StripPadded(w, "", "");
      assert w + "" + "" == w;
    }
    CleanLine(w);
  }

  /** A piece holding one address after some white space yields it. */
  lemma AddressPiece(w: string, r: string, c: char)
    requires AllSpace(w) && c !in w
    requires r != "" && IsTrimmed(r) && c !in r
    ensures CleanLines(Split(w + r, c)) == [r]
  {
    var piece := w + r;
    assert Split(piece, c) == [piece] by {
      assert c !in piece;
      SplitNoSeparator(piece, c);
    }
    assert Strip(piece) == r by {
      StripPadded(w, r, "");
      assert w + r + "" == piece;
    }
    CleanLine(piece);
  }

  /** Joining addresses at `c` + `pad` and reading them back by splitting at
      `c` and stripping gives them back, whatever white space precedes. */
  lemma {:induction false} CleanJoined(w: string, rs: seq<string>, c: char, pad: string)
    requires AllSpace(w) && c !in w && AllSpace(pad) && c !in pad
    requires IsAddressList(rs, c)
    ensures CleanLines(Split(w + Join(rs, [c] + pad), c)) == rs
    decreases rs
  {
    var sep := [c] + pad;
    if |rs| == 0 {
      assert w + Join(rs, sep) == w;
      BlankPiece(w, c);
    } else if |rs| == 1 {
      assert w + Join(rs, sep) == w + rs[0];
      AddressPiece(w, rs[0], c);
    } else {
      var head := w + rs[0];
      var tail := pad + Join(rs[1..], sep);
      assert w + Join(rs, sep) == head + [c] + tail by {
        assert Join(rs, sep) == rs[0] + sep + Join(rs[1..], sep);
      }
      assert IsAddressList(rs[1..], c) by {
        assert forall i :: 0 <= i < |rs| - 1 ==> rs[1..][i] == rs[i + 1];
      }
      calc {
        CleanLines(Split(head + [c] + tail, c));
        { SplitConcat(head, c, tail); }
        CleanLines(Split(head, c) + Split(tail, c));
        { CleanLinesConcat(Split(head, c), Split(tail, c)); }
        CleanLines(Split(head, c)) + CleanLines(Split(tail, c));
        { AddressPiece(w, rs[0], c); CleanJoined(pad, rs[1..], c, pad); }
        [rs[0]] + rs[1..];
        rs;
      }
    }
  }

  /** Typing a list of addresses one per line gives back that list. */
  lemma ParseRecipientsOfLines(rs: seq<string>)
    requires IsAddressList(rs, '\n')
    ensures ParseRecipients(Join(rs, "\n")) == rs
  {
    var text := Join(rs, "\n");
    assert "" + Join(rs, ['\n'] + "") == text by { assert ['\n'] + "" == "\n"; }
    CleanJoined("", rs, '\n', "");
    assert ParseRecipients(text) == CleanLines(Split(text, '\n'));
  }

  /** A line with white space around one address yields just that
      address: the reason each line is stripped. */
  lemma ParseRecipientsOfPaddedLine(w: string, t: string, v: string)
    requires AllSpace(w) && AllSpace(v) && IsTrimmed(t) && t != ""
    requires '\n' !in w + t + v
    ensures ParseRecipients(w + t + v) == [t]
  {
    SplitNoSeparator(w + t + v, '\n');
    StripPadded(w, t, v);
    CleanLine(w + t + v);
  }

  /** A text typed line by line gives the cleaned lines, each on its own:
      one address per line that strips to something, none for a blank
      line. */
  lemma ParseRecipientsLineByLine(lines: seq<string>)
    requires forall i :: 0 <= i < |lines| ==> '\n' !in lines[i]
    ensures ParseRecipients(Join(lines, "\n")) == CleanLines(lines)
  {
    if |lines| == 0 {
      assert Split("", '\n') == [""];
      assert Strip("") == "";
      CleanLine("");
    } else {
      assert ['\n'] == "\n";
      SplitJoin(lines, '\n');
    }
  }

  /** The `To` header lists exactly the recipients, in order, when no
      address holds a `';'`. */
  lemma ToHeaderRoundTrip(rs: seq<string>)
    requires IsAddressList(rs, ';')
    ensures ParseAddressList(ToHeader(rs)) == rs
  {
    var h := ToHeader(rs);
    assert "" + Join(rs, [';'] + " ") == h by { assert [';'] + " " == "; "; }
    CleanJoined("", rs, ';', " ");
    assert ParseAddressList(h) == CleanLines(Split(h, ';'));
  }
}
