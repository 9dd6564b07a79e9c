/** How many digits and which mark a currency has. */
module CurrencyText {
  import opened MoneyText

  /** The letter in either case, or any other character itself. */
  predicate SameLetter(c: char, upper: char) {
    c == upper || ('A' <= upper <= 'Z' && c as int == upper as int + 32)
  }

  predicate Spells(code: string, name: string) {
    |code| == |name| && forall i | 0 <= i < |name| :: SameLetter(code[i], name[i])
  }

  predicate UpperCase(name: string) {
    forall i | 0 <= i < |name| :: 'A' <= name[i] <= 'Z'
  }

  lemma UpperSpells(code: string, name: string)
    requires UpperCase(name)
    ensures Upper(code) == name <==> Spells(code, name)
  {
    if Spells(code, name) {
      forall i | 0 <= i < |name|
        ensures Upper(code)[i] == name[i]
      {
        assert SameLetter(code[i], name[i]);
      }
      assert Upper(code) == name;
    }
    if Upper(code) == name {
      forall i | 0 <= i < |name|
        ensures SameLetter(code[i], name[i])
      {
        assert Upper(code)[i] == name[i];
      }
    }
  }

  /** The space around a text: tab to carriage return, the space separators, the line separators and the byte order mark. */
  lemma SpacesAre(c: char)
    ensures IsSpace(c) <==> c as int in {9, 10, 11, 12, 13, 32, 160, 5760, 8192, 8193, 8194, 8195, 8196, 8197, 8198, 8199, 8200, 8201,
                                         8202, 8232, 8233, 8239, 8287, 12288, 65279}
  {
  }

  /** Yen and won have no fraction digits, the dinars of Kuwait and Bahrain three, and all others two, whatever the case of the
      letters and the space around them. */
  lemma DigitsOfCurrencies(before: string, code: string, after: string)
    requires AllSpace(before) && AllSpace(after) && code != [] && !IsSpace(code[0]) && !IsSpace(code[|code| - 1])
    ensures DigitsForCurrency(before + code + after)
            == if Spells(code, "JPY") || Spells(code, "KRW") then 0
               else if Spells(code, "KWD") || Spells(code, "BHD") then 3
               else 2
  {
    TrimDrops(before, code, after);
    UpperSpells(code, "JPY");
    UpperSpells(code, "KRW");
    UpperSpells(code, "KWD");
    UpperSpells(code, "BHD");
  }

  /** A printed amount begins with a minus sign if it is negative, and then the mark of its currency. */
  lemma PrintedMark(minor: int, currency: string)
    ensures var sign := if minor < 0 then "-" else "";
      var mark := match currency
        case "CNY" => "\U{00A5}" case "JPY" => "\U{00A5}" case "USD" => "$" case "EUR" => "\U{20AC}"
        case "GBP" => "\U{00A3}" case "HKD" => "HK$" case "KRW" => "\U{20A9}" case _ => currency + " ";
      sign + mark <= FormatMoney(minor, currency)
  {
  }
}
