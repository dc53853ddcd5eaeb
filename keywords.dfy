/** Whether a message can mention "pausado" or "aprovado" in any case. The
    playback route picks 403 or 402 by searching the lower-cased message for
    those two words; a message in which no "p" meets an "a" (in either order
    and either case) contains neither. The lemmas below establish this for
    the messages the recorder can fail with, one literal piece at a time:
    each string literal gets its own small lemma so that no single proof
    has to unfold several long literals at once. */
module Keywords {
  import opened Text

  /** No letter pair that starts "pausado" or "aprovado" occurs in the text,
      in either case. */
  predicate KeywordFree(s: string)
  {
    forall i :: 0 <= i < |s| - 1 ==>
      && !(LowerChar(s[i]) == 'p' && LowerChar(s[i + 1]) == 'a')
      && !(LowerChar(s[i]) == 'a' && LowerChar(s[i + 1]) == 'p')
  }

  /** A text holding neither case of `missing`, one of the two letters, is
      keyword free. */
  lemma KeywordFreeAbsent(s: string, missing: char)
    requires missing == 'a' || missing == 'p'
    requires forall i :: 0 <= i < |s| ==> s[i] != missing && s[i] as int != missing as int - 32
    ensures KeywordFree(s)
  {
    forall i | 0 <= i < |s| ensures LowerChar(s[i]) != missing {
      LowerCharPreimage(s[i], missing);
    }
  }

  lemma KeywordFreeConcat(x: string, y: string)
    requires KeywordFree(x) && KeywordFree(y)
    requires x == [] || y == [] || !(LowerChar(x[|x| - 1]) in "ap" && LowerChar(y[0]) in "ap")
    ensures KeywordFree(x + y)
  {
    var s := x + y;
    forall i | 0 <= i < |s| - 1
      ensures !(LowerChar(s[i]) == 'p' && LowerChar(s[i + 1]) == 'a')
      ensures !(LowerChar(s[i]) == 'a' && LowerChar(s[i + 1]) == 'p')
    {
      if i == |x| - 1 {
        assert s[i] == x[|x| - 1] && s[i + 1] == y[0];
      }
    }
  }

  /** Keyword-free texts joined after a space stay keyword free. */
  lemma KeywordFreeAfterSpace(x: string, y: string)
    requires KeywordFree(x) && KeywordFree(y) && |x| > 0 && x[|x| - 1] == ' '
    ensures KeywordFree(x + y)
  {
    KeywordFreeConcat(x, y);
  }

  // Each literal piece is settled by a lemma of its own: the solver's cost
  // for a membership test on a literal grows quickly when several are
  // combined in one proof.

  lemma StatusLineKeywordFree()
    ensures KeywordFree("404 Not Found: ")
  {
    KeywordFreeAbsent("404 Not Found: ", 'p');
  }

  lemma RequestedUrlKeywordFree()
    ensures KeywordFree("The requested URL was not found ")
  {
    KeywordFreeAbsent("The requested URL was not found ", 'p');
  }

  lemma OnServerKeywordFree()
    ensures KeywordFree("on the server. ")
  {
    KeywordFreeAbsent("on the server. ", 'p');
  }

  lemma ManuallyKeywordFree()
    ensures KeywordFree("If you entered the URL manually ")
  {
    KeywordFreeAbsent("If you entered the URL manually ", 'p');
  }

  lemma TryAgainKeywordFree()
    ensures KeywordFree("and try again.")
  {
    KeywordFreeAbsent("and try again.", 'p');
  }

  lemma CheckYourKeywordFree()
    ensures KeywordFree("ease check your s")
  {
    KeywordFreeAbsent("ease check your s", 'p');
  }

  /** The "p" of "please" is followed by "l". */
  lemma PleaseKeywordFree()
    ensures KeywordFree("please check your s")
  {
    var f, g := "pl", "ease check your s";
    KeywordFreeAbsent(f, 'a');
    CheckYourKeywordFree();
    KeywordFreeConcat(f, g);
    assert f + g == "please check your s";
  }

  /** The "p" of "spelling" is followed by "e". */
  lemma SpellingKeywordFree()
    ensures KeywordFree("please check your spelling ")
  {
    var g, h, i := "please check your s", "p", "elling ";
    PleaseKeywordFree();
    KeywordFreeAbsent(h, 'a');
    KeywordFreeAbsent(i, 'p');
    KeywordFreeConcat(g, h);
    KeywordFreeConcat(g + h, i);
    assert g + h + i == "please check your spelling ";
  }

  /** The text of werkzeug's NotFound mentions neither keyword. */
  lemma NotFoundLiteralKeywordFree()
    ensures KeywordFree("404 Not Found: " + "The requested URL was not found " + "on the server. "
                        + "If you entered the URL manually " + "please check your spelling " + "and try again.")
  {
    var a, b, c := "404 Not Found: ", "The requested URL was not found ", "on the server. ";
    var d, e, f := "If you entered the URL manually ", "please check your spelling ", "and try again.";
    StatusLineKeywordFree();
    RequestedUrlKeywordFree();
    OnServerKeywordFree();
    ManuallyKeywordFree();
    SpellingKeywordFree();
    TryAgainKeywordFree();
    KeywordFreeAfterSpace(a, b);
    KeywordFreeAfterSpace(a + b, c);
    KeywordFreeAfterSpace(a + b + c, d);
    KeywordFreeAfterSpace(a + b + c + d, e);
    KeywordFreeAfterSpace(a + b + c + d + e, f);
  }

  /** The recorder's error prefix mentions neither keyword. */
  lemma RecordPrefixKeywordFree()
    ensures KeywordFree("Erro ao registrar visualização: ")
  {
    KeywordFreeAbsent("Erro ao registrar visualização: ", 'p');
  }

  lemma AddressKeywordFree()
    ensures KeywordFree("_address' is an ")
  {
    KeywordFreeAbsent("_address' is an ", 'p');
  }

  /** The one "p" of "ip_address" is followed by "_". */
  lemma IpAddressKeywordFree()
    ensures KeywordFree("'ip_address' is an ")
  {
    var a, b, c := "'i", "p", "_address' is an ";
    KeywordFreeAbsent(a, 'p');
    KeywordFreeAbsent(b, 'a');
    KeywordFreeConcat(a, b);
    AddressKeywordFree();
    KeywordFreeConcat(a + b, c);
    assert a + b + c == "'ip_address' is an ";
  }

  lemma InvalidKeywordKeywordFree()
    ensures KeywordFree("invalid keyword ")
  {
    KeywordFreeAbsent("invalid keyword ", 'p');
  }

  lemma ArgumentForKeywordFree()
    ensures KeywordFree("argument for LogVisualizacao")
  {
    KeywordFreeAbsent("argument for LogVisualizacao", 'p');
  }

  /** The TypeError raised for an unknown column keyword mentions neither
      keyword. */
  lemma TypeErrorKeywordFree()
    ensures KeywordFree("'ip_address' is an " + "invalid keyword " + "argument for LogVisualizacao")
  {
    var a, b, c := "'ip_address' is an ", "invalid keyword ", "argument for LogVisualizacao";
    IpAddressKeywordFree();
    InvalidKeywordKeywordFree();
    ArgumentForKeywordFree();
    KeywordFreeAfterSpace(a, b);
    KeywordFreeAfterSpace(a + b, c);
  }
}
