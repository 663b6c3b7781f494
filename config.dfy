/** The bot's settings: the per-invocation action limits and the text tables
    the phases draw on. Credentials, target account names and operation hours
    are read by code outside this model. */
module Settings {
  import opened Triggers

  datatype Config = Config(
    followLimit: nat,          // DAILY_FOLLOW_LIMIT
    unfollowLimit: nat,        // DAILY_UNFOLLOW_LIMIT
    storyReplyLimit: nat,      // STORY_REPLY_LIMIT
    commentLimit: nat,         // COMMENT_LIMIT
    storyResponses: seq<string>,
    autoResponses: seq<Rule>,  // the trigger table, in its declaration order
    commentTemplates: seq<string>)

  /** The values the repository ships with. */
  const Defaults: Config := Config(
    10, 8, 5, 3,
    [ "Great story! \U{1F44F}", "Amazing content! \U{1F4AB}", "Love this! \U{2764}\U{FE0F}",
      "So inspiring! \U{2728}", "Awesome! \U{1F60D}", "Nice! \U{1F44D}",
      "Cool story! \U{1F60E}", "Well done! \U{1F64C}" ],
    [ Rule("hello", "Hi there! Thanks for messaging! \U{1F60A}"),
      Rule("hi", "Hello! How can I help you? \U{1F44B}"),
      Rule("hey", "Hey! What's up? \U{1F604}"),
      Rule("price", "Please check our website for pricing details! \U{1F4B0}"),
      Rule("help", "I'm here to help! What do you need assistance with? \U{1F917}"),
      Rule("thanks", "You're welcome! Have a great day! \U{1F31F}"),
      Rule("thank you", "You're welcome! Feel free to ask anything! \U{1F604}"),
      Rule("how are you", "I'm doing great! Thanks for asking! \U{1F60A}"),
      Rule("what's up", "Just here managing the account! How about you? \U{1F604}") ],
    [ "Great post! \U{1F44F}", "Amazing content! \U{1F4AB}", "Love this! \U{2764}\U{FE0F}",
      "So inspiring! \U{2728}", "Awesome work! \U{1F60D}", "Nice post! \U{1F44D}",
      "Cool content! \U{1F60E}", "Well done! \U{1F64C}" ])

  /** Every shipped trigger is lower case, so each one matches a message
      exactly when it occurs in it ignoring the case of ASCII letters. */
  lemma DefaultTriggersLowerCase()
    ensures forall j :: 0 <= j < |Defaults.autoResponses| ==> IsLowerCase(Defaults.autoResponses[j].trigger)
  {
  }
}
