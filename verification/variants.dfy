/**
  The two variants of `generate_suggestions` side by side: they test the
  short-content and likes/follows conditions alike, and main.py's lower
  word cutoff (100 against 150) makes its too-long tip fire on every text
  that fires app.py's.
 */
module Variants {
  import App = AppSuggestions
  import MainApi = MainSuggestions

  lemma SharedRules(text: string)
    ensures App.ShortContentTip in App.Suggestions(text) <==>
            MainApi.ShortContentTip in MainApi.Suggestions(text)
    ensures App.LikesFollowsTip in App.Suggestions(text) <==>
            MainApi.LikesFollowsTip in MainApi.Suggestions(text)
    ensures App.TooLongTip in App.Suggestions(text) ==>
            MainApi.TooLongTip in MainApi.Suggestions(text)
  {
    App.ShortContentIff(text);
    MainApi.ShortContentIff(text);
    App.LikesFollowsIff(text);
    MainApi.LikesFollowsIff(text);
    App.TooLongIff(text);
    MainApi.TooLongIff(text);
  }
}
