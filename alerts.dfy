/** How `createAlert` (Logger.js:31-44) turns action labels into alert actions: a leading `!`
    marks a destructive action, and a leading space before `!` escapes it. */
module Alerts {
  import opened Strings

  datatype Action = Destructive(title: string) | Normal(title: string)

  datatype Alert = Alert(title: string, message: string, hasCancel: bool, actions: seq<Action>)

  /** The action one label becomes. */
  function Classify(item: string): Action
  {
    if StartsWith(item, "!") then Destructive(item[1..])
    else if StartsWith(item, " !") then Normal(item[1..])
    else Normal(item)
  }

  /** `createAlert`: a cancel action when asked for, then one action per label, in order. */
  function CreateAlert(title: string, message: string, addCancel: bool, items: seq<string>): (a: Alert)
    ensures a.title == title && a.message == message && a.hasCancel == addCancel
    ensures |a.actions| == |items|
    ensures forall i :: 0 <= i < |items| ==> a.actions[i] == Classify(items[i])
  {
    Alert(title, message, addCancel, seq(|items|, i requires 0 <= i < |items| => Classify(items[i])))
  }

  /** The label that yields an action: `!` before a destructive title, and a space before a
      normal title that itself starts with `!`. */
  function LabelFor(a: Action): string
  {
    match a
    case Destructive(t) => "!" + t
    case Normal(t) => if StartsWith(t, "!") then " " + t else t
  }

  /** Every action except a normal one whose title starts with `" !"` can be written as a label. */
  predicate Expressible(a: Action)
  {
    !(a.Normal? && StartsWith(a.title, " !"))
  }

  /** Classifying recovers the action from its label. */
  lemma ClassifyLabelFor(a: Action)
    requires Expressible(a)
    ensures Classify(LabelFor(a)) == a
  {
    match a
    case Destructive(t) =>
      assert ("!" + t)[..1] == "!";
      assert ("!" + t)[1..] == t;
    case Normal(t) =>
      if StartsWith(t, "!") {
        var l := " " + t;
        assert l[..1] != "!" by { assert l[0] == ' '; }
        assert l[..2] == " !" by { assert l[1] == t[0]; }
        assert l[1..] == t;
      } else if StartsWith(t, " !") {
        assert false;
      }
  }

  /** Every label is the label of the action it yields, so labels and expressible actions
      correspond one to one. */
  lemma LabelForClassify(item: string)
    ensures Expressible(Classify(item))
    ensures LabelFor(Classify(item)) == item
  {
    if StartsWith(item, "!") {
      assert item == "!" + item[1..];
    } else if StartsWith(item, " !") {
      var t := item[1..];
      assert t[..1] == "!";
      assert item == " " + t;
    } else {
      assert !StartsWith(item, "!") && !StartsWith(item, " !");
    }
  }

  /** The labels that spell out a sequence of actions. */
  function Labels(actions: seq<Action>): (items: seq<string>)
    ensures |items| == |actions|
    ensures forall i :: 0 <= i < |actions| ==> items[i] == LabelFor(actions[i])
  {
    seq(|actions|, i requires 0 <= i < |actions| => LabelFor(actions[i]))
  }

  /** The alert's actions spell out exactly the labels it was given, and each of them can be
      written as a label. */
  lemma CreateAlertLabels(title: string, message: string, addCancel: bool, items: seq<string>)
    ensures var a := CreateAlert(title, message, addCancel, items);
      && (forall i :: 0 <= i < |a.actions| ==> Expressible(a.actions[i]))
      && Labels(a.actions) == items
  {
    var a := CreateAlert(title, message, addCancel, items);
    forall i | 0 <= i < |items| ensures Expressible(a.actions[i]) && LabelFor(a.actions[i]) == items[i] {
      LabelForClassify(items[i]);
    }
  }

  /** Any wanted sequence of expressible actions is what the alert shows when it is given
      their labels. */
  lemma CreateAlertFromActions(title: string, message: string, addCancel: bool, actions: seq<Action>)
    requires forall i :: 0 <= i < |actions| ==> Expressible(actions[i])
    ensures CreateAlert(title, message, addCancel, Labels(actions)).actions == actions
  {
    var a := CreateAlert(title, message, addCancel, Labels(actions));
    forall i | 0 <= i < |actions| ensures a.actions[i] == actions[i] {
      ClassifyLabelFor(actions[i]);
    }
  }

  /** No label yields a normal action titled `" !..."`: the escape removes only the space. */
  lemma UnreachableTitle(item: string, rest: string)
    ensures Classify(item) != Normal(" !" + rest)
  {
    LabelForClassify(item);
    assert StartsWith(" !" + rest, " !") by {
      assert (" !" + rest)[..2] == " !";
    }
  }

  lemma ClassifyExamples()
    ensures Classify("!Delete All Logs") == Destructive("Delete All Logs")
    ensures Classify(" !Keep") == Normal("!Keep")
    ensures Classify("Export") == Normal("Export")
  {
    assert "!Delete All Logs"[..1] == "!";
    assert " !Keep"[..1] != "!" by { assert " !Keep"[..1][0] == ' '; }
    assert " !Keep"[..2] == " !";
    assert "Export"[..1] != "!" by { assert "Export"[..1][0] == 'E'; }
    assert "Export"[..2] != " !" by { assert "Export"[..2][0] == 'E'; }
  }
}
